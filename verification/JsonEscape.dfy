/** The string escapes json.dumps writes, and what they denote. */
module JsonEscape {
  import opened Bytes
  import opened Text
  import opened Jsmn
  import opened JsonText

  function UnicodeEscape(n: U16): string {
    ['\\', 'u', DigitChar(n / 0x1000 % 16, false), DigitChar(n / 0x100 % 16, false), DigitChar(n / 0x10 % 16, false),
     DigitChar(n % 16, false)]
  }

  /** What json.dumps writes for one character: everything outside printable ASCII is escaped. */
  function EscapeChar(c: char): string {
    if c == '"' then ['\\', '"']
    else if c == '\\' then ['\\', '\\']
    else if c == '\n' then ['\\', 'n']
    else if c == '\r' then ['\\', 'r']
    else if c == '\t' then ['\\', 't']
    else if c == '\U{8}' then ['\\', 'b']
    else if c == '\U{c}' then ['\\', 'f']
    else if IsPrintable(c) then [c]
    else if (c as int) < TWO16 then UnicodeEscape(c as int)
    else UnicodeEscape(HighSurrogate(c)) + UnicodeEscape(LowSurrogate(c))
  }

  function HighSurrogate(c: char): U16
    requires c as int >= TWO16
  {
    0xD800 + (c as int - TWO16) / 0x400 % 0x400
  }

  function LowSurrogate(c: char): U16
    requires c as int >= TWO16
  {
    0xDC00 + (c as int - TWO16) % 0x400
  }

  function Escape(s: string): string {
    if s == "" then "" else EscapeChar(s[0]) + Escape(s[1..])
  }

  /** The seven short escapes. */
  lemma ShortEscapes()
    ensures EscapeChar('"') == "\\\"" && EscapeChar('\\') == "\\\\"
    ensures EscapeChar('\n') == "\\n" && EscapeChar('\r') == "\\r"
    ensures EscapeChar('\t') == "\\t" && EscapeChar('\U{8}') == "\\b" && EscapeChar('\U{c}') == "\\f"
  {
  }

  /** Other printable ASCII is written as it is. */
  lemma PrintableKept(c: char)
    requires ' ' <= c <= '~' && c != '"' && c != '\\'
    ensures EscapeChar(c) == [c]
  {
  }

  /** \u and four lower-case digits. */
  function FourDigitUnit(n: U16): string {
    var l := "0123456789abcdef";
    ['\\', 'u', l[n / 0x1000], l[n / 0x100 % 16], l[n / 0x10 % 16], l[n % 16]]
  }

  lemma LowerDigit(d: nat)
    requires d < 16
    ensures DigitChar(d, false) == "0123456789abcdef"[d]
  {
    DigitTable('0', d);
  }

  lemma UnitText(n: U16)
    ensures UnicodeEscape(n) == FourDigitUnit(n)
  {
    LowerDigit(n / 0x1000);
    LowerDigit(n / 0x100 % 16);
    LowerDigit(n / 0x10 % 16);
    LowerDigit(n % 16);
  }

  /** Other characters below 16 bits are one unit. */
  lemma UnitWritten(c: char)
    requires (c < ' ' && c != '\n' && c != '\r' && c != '\t' && c != '\U{8}' && c != '\U{c}') || '~' < c
    requires (c as int) < 0x10000
    ensures EscapeChar(c) == FourDigitUnit(c as int)
  {
    UnitText(c as int);
  }

  lemma SurrogateHalves(c: char)
    requires c as int >= 0x10000
    ensures var n := c as int - 0x10000;
            n / 0x400 < 0x400 && HighSurrogate(c) == 0xD800 + n / 0x400 && LowSurrogate(c) == 0xDC00 + n % 0x400
  {
  }

  /** Characters beyond 16 bits are a pair of surrogate units. */
  lemma PairWritten(c: char, hi: U16, lo: U16)
    requires c as int >= 0x10000
    requires hi == 0xD800 + (c as int - 0x10000) / 0x400 && lo == 0xDC00 + (c as int - 0x10000) % 0x400
    ensures EscapeChar(c) == FourDigitUnit(hi) + FourDigitUnit(lo)
  {
    SurrogateHalves(c);
    UnitText(hi);
    UnitText(lo);
  }

  lemma UnicodeScanned(js: string, p: nat, n: U16, end: nat)
    requires Has(js, p, UnicodeEscape(n), end)
    ensures StringEnd(js, p) == StringEnd(js, end)
  {
    var s := UnicodeEscape(n);
    forall i | 0 <= i < 6 ensures js[p + i] == s[i] {
      CharAt(js, p, s, end, i);
    }
    assert HexRun(js, p + 6, 0) == Some(p + 6);
    assert HexRun(js, p + 5, 1) == Some(p + 6);
    assert HexRun(js, p + 4, 2) == Some(p + 6);
    assert HexRun(js, p + 3, 3) == Some(p + 6);
    assert HexRun(js, p + 2, 4) == Some(p + 6);
  }

  lemma CharScanned(js: string, p: nat, c: char, end: nat)
    requires Has(js, p, EscapeChar(c), end)
    ensures StringEnd(js, p) == StringEnd(js, end)
  {
    var s := EscapeChar(c);
    if IsPrintable(c) || |s| == 2 {
      CharAt(js, p, s, end, 0);
      if |s| == 2 {
        CharAt(js, p, s, end, 1);
      }
    } else if c as int < TWO16 {
      UnicodeScanned(js, p, c as int, end);
    } else {
      var mid := Split(js, p, UnicodeEscape(HighSurrogate(c)), UnicodeEscape(LowSurrogate(c)), end);
      UnicodeScanned(js, p, HighSurrogate(c), mid);
      UnicodeScanned(js, mid, LowSurrogate(c), end);
    }
  }

  lemma {:induction false} EscapeScanned(js: string, p: nat, s: string, end: nat)
    requires Has(js, p, Escape(s) + ['"'], end)
    ensures StringEnd(js, p) == At(p + |Escape(s)|)
    decreases |s|
  {
    if s == "" {
      CharAt(js, p, Escape(s) + ['"'], end, 0);
    } else {
      var first, rest := EscapeChar(s[0]), Escape(s[1..]) + ['"'];
      assert Escape(s) + ['"'] == first + rest;
      var mid := Split(js, p, first, rest, end);
      CharScanned(js, p, s[0], mid);
      EscapeScanned(js, mid, s[1..], end);
    }
  }

  /** Whatever the string, its escaped form may stand between quotes. */
  lemma EscapeIsRaw(s: string)
    ensures RawString(Escape(s))
  {
    var js := Escape(s) + ['"'];
    assert js[0..|js|] == js;
    EscapeScanned(js, 0, s, |js|);
  }

  predicate PlainChar(c: char) {
    IsPrintable(c) && c != '"' && c != '\\'
  }

  /** Plain text needs no escapes. */
  lemma {:induction false} PlainEscape(s: string)
    requires forall i :: 0 <= i < |s| ==> PlainChar(s[i])
    ensures Escape(s) == s && RawString(s)
  {
    EscapeIsRaw(s);
    if s != "" {
      PlainEscape(s[1..]);
    }
  }

  // ---- section 7 of RFC 8259: what an escaped string denotes ---------------------------------------

  function Unquoted(c: char): char {
    if c == 'n' then '\n'
    else if c == 'r' then '\r'
    else if c == 't' then '\t'
    else if c == 'b' then '\U{8}'
    else if c == 'f' then '\U{c}'
    else c
  }

  /** The four digits from `s[2]` on, -1 if one is no digit. */
  function Unit(s: string): int
    requires |s| >= 6
  {
    if DigitVal(s[2]) < 0 || DigitVal(s[3]) < 0 || DigitVal(s[4]) < 0 || DigitVal(s[5]) < 0 then -1
    else DigitVal(s[2]) * 0x1000 + DigitVal(s[3]) * 0x100 + DigitVal(s[4]) * 0x10 + DigitVal(s[5])
  }

  predicate IsUnicodeEscape(s: string) {
    |s| >= 6 && s[0] == '\\' && s[1] == 'u' && Unit(s) >= 0
  }

  predicate IsSurrogatePair(s: string) {
    IsUnicodeEscape(s) && 0xD800 <= Unit(s) < 0xDC00 && IsUnicodeEscape(s[6..]) && 0xDC00 <= Unit(s[6..]) < 0xE000
  }

  function Unescape(s: string): Option<string> {
    if s == "" then Some("")
    else if IsSurrogatePair(s) then
      Prepend((TWO16 + (Unit(s) - 0xD800) * 0x400 + (Unit(s[6..]) - 0xDC00)) as char, Unescape(s[12..]))
    else if IsUnicodeEscape(s) then
      if 0xD800 <= Unit(s) < 0xE000 then None else Prepend(Unit(s) as char, Unescape(s[6..]))
    else if s[0] != '\\' then Prepend(s[0], Unescape(s[1..]))
    else if |s| >= 2 && IsSimpleEscape(s[1]) then Prepend(Unquoted(s[1]), Unescape(s[2..]))
    else None
  }

  function Prepend(c: char, rest: Option<string>): Option<string> {
    match rest
    case None => None
    case Some(s) => Some([c] + s)
  }

  lemma UnitOfEscape(n: U16, rest: string)
    ensures var s := UnicodeEscape(n) + rest; IsUnicodeEscape(s) && Unit(s) == n && s[6..] == rest
  {
    var e := UnicodeEscape(n);
    var s := e + rest;
    assert s[2] == e[2] && s[3] == e[3] && s[4] == e[4] && s[5] == e[5];
    FourDigits(n);
  }

  lemma FourDigits(n: U16)
    ensures n / 0x1000 % 16 * 0x1000 + n / 0x100 % 16 * 0x100 + n / 0x10 % 16 * 0x10 + n % 16 == n
  {
    var a, b, c := n / 0x10, n / 0x100, n / 0x1000;
    assert b == a / 0x10 && c == b / 0x10;
  }

  lemma PairRead(s: string, hi: U16, lo: U16)
    requires IsUnicodeEscape(s) && Unit(s) == hi && 0xD800 <= hi < 0xDC00
    requires IsUnicodeEscape(s[6..]) && Unit(s[6..]) == lo && 0xDC00 <= lo < 0xE000
    ensures |s| >= 12 && Unescape(s) == Prepend((TWO16 + (hi - 0xD800) * 0x400 + (lo - 0xDC00)) as char, Unescape(s[12..]))
  {
  }

  lemma UnescapePair(c: char, rest: string)
    requires c as int >= TWO16
    ensures Unescape(UnicodeEscape(HighSurrogate(c)) + UnicodeEscape(LowSurrogate(c)) + rest) == Prepend(c, Unescape(rest))
  {
    var hi, lo := HighSurrogate(c), LowSurrogate(c);
    var s, t := UnicodeEscape(hi) + UnicodeEscape(lo) + rest, UnicodeEscape(lo) + rest;
    assert s == UnicodeEscape(hi) + t;
    UnitOfEscape(hi, t);
    UnitOfEscape(lo, rest);
    PairRead(s, hi, lo);
    assert s[12..] == t[6..] == rest;
    Halves(c as int - TWO16);
  }

  lemma Halves(n: nat)
    requires n < 0x10_0000
    ensures n / 0x400 % 0x400 * 0x400 + n % 0x400 == n
  {
  }

  lemma UnescapeUnit(n: U16, rest: string)
    requires n < 0xD800 || 0xE000 <= n
    ensures Unescape(UnicodeEscape(n) + rest) == Prepend(n as char, Unescape(rest))
  {
    UnitOfEscape(n, rest);
  }

  lemma UnescapeShort(c: char, rest: string)
    requires |EscapeChar(c)| <= 2
    ensures Unescape(EscapeChar(c) + rest) == Prepend(c, Unescape(rest))
  {
    var s := EscapeChar(c) + rest;
    assert !IsUnicodeEscape(s);
    assert s[|EscapeChar(c)|..] == rest;
  }

  lemma UnescapeChar(c: char, rest: string)
    ensures Unescape(EscapeChar(c) + rest) == Prepend(c, Unescape(rest))
  {
    if |EscapeChar(c)| <= 2 {
      UnescapeShort(c, rest);
    } else if c as int < TWO16 {
      UnescapeUnit(c as int, rest);
    } else {
      UnescapePair(c, rest);
    }
  }

  /** The escaped form denotes the string it was made from. */
  lemma {:induction false} UnescapeEscape(s: string)
    ensures Unescape(Escape(s)) == Some(s)
  {
    if s != "" {
      UnescapeEscape(s[1..]);
      UnescapeChar(s[0], Escape(s[1..]));
      assert s == [s[0]] + s[1..];
    }
  }
}
