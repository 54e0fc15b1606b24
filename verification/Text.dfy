/** Number text: what printf, Python's format and strtoul do with it. */
module Text {
  import opened Bytes

  // ---- digits ----------------------------------------------------------------

  function DigitChar(d: int, upper: bool): char
    requires 0 <= d < 16
  {
    if d < 10 then ('0' as int + d) as char
    else if upper then ('A' as int + (d - 10)) as char
    else ('a' as int + (d - 10)) as char
  }

  /** The value of a hexadecimal digit of either case, -1 for any other character. */
  function DigitVal(c: char): int {
    if '0' <= c <= '9' then c as int - '0' as int
    else if 'a' <= c <= 'f' then 10 + (c as int - 'a' as int)
    else if 'A' <= c <= 'F' then 10 + (c as int - 'A' as int)
    else -1
  }

  predicate IsDigit(c: char, base: int) {
    0 <= DigitVal(c) < base
  }

  predicate IsDecimal(c: char) {
    IsDigit(c, 10)
  }

  predicate AllDigits(s: string, base: int) {
    forall i :: 0 <= i < |s| ==> IsDigit(s[i], base)
  }

  /** What a digit string denotes, most significant digit first. */
  function ValueOf(s: string, base: nat): nat
    requires AllDigits(s, base)
  {
    if s == "" then 0
    else ValueOf(s[..|s| - 1], base) * base + DigitVal(s[|s| - 1])
  }

  /** Printing without leading zeros, in upper case where letters occur. */
  function Numeral(n: nat, base: nat): (s: string)
    requires base == 10 || base == 16
    ensures |s| >= 1
  {
    if n < base then [DigitChar(n, true)]
    else Numeral(n / base, base) + [DigitChar(n % base, true)]
  }

  function Dec(n: nat): string {
    Numeral(n, 10)
  }

  function ZeroPad(s: string, width: nat): string {
    seq(if |s| < width then width - |s| else 0, _ => '0') + s
  }

  /** One more digit at the end. */
  lemma DigitAppended(s: string, d: nat, base: nat)
    requires (base == 10 || base == 16) && d < base && AllDigits(s, base)
    ensures var t := s + [DigitChar(d, true)]; AllDigits(t, base) && ValueOf(t, base) == ValueOf(s, base) * base + d
  {
    var t := s + [DigitChar(d, true)];
    assert t[..|t| - 1] == s;
  }

  lemma LastDigit(n: nat, base: nat)
    requires base == 10 || base == 16
    ensures n / base * base + n % base == n && n % base < base
    ensures n >= base ==> n / base < n
  {
    if base == 10 {
      assert n / 10 * 10 + n % 10 == n;
    } else {
      assert n / 16 * 16 + n % 16 == n;
    }
  }

  lemma NumeralDigit(n: nat, base: nat)
    requires (base == 10 || base == 16) && n < base
    ensures AllDigits(Numeral(n, base), base) && ValueOf(Numeral(n, base), base) == n
  {
    var s := Numeral(n, base);
    assert s[..|s| - 1] == "" && ValueOf("", base) == 0;
  }

  lemma NumeralDigits(n: nat, base: nat, high: string)
    requires (base == 10 || base == 16) && n >= base
    requires high == Numeral(n / base, base) && AllDigits(high, base) && ValueOf(high, base) == n / base
    ensures AllDigits(Numeral(n, base), base) && ValueOf(Numeral(n, base), base) == n
  {
    LastDigit(n, base);
    DigitAppended(high, n % base, base);
  }

  lemma {:induction false} NumeralValue(n: nat, base: nat)
    requires base == 10 || base == 16
    ensures AllDigits(Numeral(n, base), base)
    ensures ValueOf(Numeral(n, base), base) == n
  {
    if n < base {
      NumeralDigit(n, base);
    } else {
      LastDigit(n, base);
      NumeralValue(n / base, base);
      NumeralDigits(n, base, Numeral(n / base, base));
    }
  }

  lemma {:induction false} ZerosValue(k: nat, base: nat)
    requires base == 10 || base == 16
    ensures AllDigits(seq(k, _ => '0'), base)
    ensures ValueOf(seq(k, _ => '0'), base) == 0
  {
    if k > 0 {
      ZerosValue(k - 1, base);
      var z := seq(k, _ => '0');
      assert z[..k - 1] == seq(k - 1, _ => '0');
    }
  }

  lemma {:induction false} ZeroPrefixValue(k: nat, s: string, base: nat)
    requires base == 10 || base == 16
    requires AllDigits(s, base)
    ensures AllDigits(seq(k, _ => '0') + s, base)
    ensures ValueOf(seq(k, _ => '0') + s, base) == ValueOf(s, base)
  {
    var z := seq(k, _ => '0');
    if s == "" {
      assert z + s == z;
      ZerosValue(k, base);
    } else {
      ZeroPrefixValue(k, s[..|s| - 1], base);
      assert (z + s)[..|z + s| - 1] == z + s[..|s| - 1];
    }
  }

  /** Every prefix of a decimal numeral is the numeral of a number of that many digits. */
  lemma {:induction false} DecPrefix(n: nat, k: nat) returns (m: nat)
    requires 1 <= k <= |Dec(n)|
    ensures Dec(m) == Dec(n)[..k]
  {
    if k == |Dec(n)| {
      m := n;
      assert Dec(n)[..k] == Dec(n);
    } else {
      m := DecPrefix(n / 10, k);
      assert Dec(n)[..k] == Dec(n / 10)[..k];
    }
  }

  /** The digits of either case, and no other character denotes a digit. */
  lemma DigitTable(c: char, d: nat)
    requires d < 16
    ensures DigitChar(d, true) == "0123456789ABCDEF"[d] && DigitChar(d, false) == "0123456789abcdef"[d]
    ensures DigitVal(c) == d <==> c == "0123456789ABCDEF"[d] || c == "0123456789abcdef"[d]
  {
    var upper, lower := "0123456789ABCDEF", "0123456789abcdef";
    if d < 10 {
      assert upper[d] == lower[d] == (48 + d) as char;
    } else {
      assert upper[d] == (55 + d) as char && lower[d] == (87 + d) as char;
    }
  }

  /** What a digit string denotes, read from the front: a digit weighs the base to the number of digits behind it. */
  lemma {:induction false} LeadingDigit(s: string, base: nat)
    requires s != "" && AllDigits(s, base)
    ensures ValueOf("", base) == 0
    ensures ValueOf(s, base) == DigitVal(s[0]) * Pow(base, |s| - 1) + ValueOf(s[1..], base)
  {
    var init, last := s[..|s| - 1], s[|s| - 1];
    if init == "" {
      assert s[1..] == "";
    } else {
      LeadingDigit(init, base);
      var tail := s[1..];
      assert tail[..|tail| - 1] == init[1..] && tail[|tail| - 1] == last;
      Weighed(DigitVal(s[0]), base, Pow(base, |init| - 1), ValueOf(init[1..], base), DigitVal(last));
    }
  }

  lemma Weighed(d: int, base: int, weight: int, rest: int, last: int)
    ensures (d * weight + rest) * base + last == d * (base * weight) + (rest * base + last)
  {
  }

  function Pow(base: nat, k: nat): nat {
    if k == 0 then 1 else base * Pow(base, k - 1)
  }

  /** A numeral has at most k digits exactly when the number is below base^k. */
  lemma {:induction false} NumeralLength(n: nat, base: nat, k: nat)
    requires base == 10 || base == 16
    requires k >= 1
    ensures |Numeral(n, base)| <= k <==> n < Pow(base, k)
  {
    if k == 1 {
      assert Pow(base, 1) == base;
    } else if n >= base {
      NumeralLength(n / base, base, k - 1);
      if base == 10 {
        assert n / 10 < Pow(10, k - 1) <==> n < 10 * Pow(10, k - 1);
      } else {
        assert n / 16 < Pow(16, k - 1) <==> n < 16 * Pow(16, k - 1);
      }
    } else {
      PowAtLeastBase(base, k);
    }
  }

  lemma {:induction false} PowAtLeastBase(base: nat, k: nat)
    requires base >= 1 && k >= 1
    ensures Pow(base, k) >= base
  {
    if k > 1 {
      PowAtLeastBase(base, k - 1);
      assert base * Pow(base, k - 1) >= base * 1;
    }
  }

  // ---- strtoul ----------------------------------------------------------------

  predicate IsCSpace(c: char) {
    c == ' ' || '\t' <= c <= '\r'
  }

  /** How many leading characters of `s` satisfy `p`. */
  function Span(s: string, p: char -> bool): (n: nat)
    ensures n <= |s|
    ensures forall i :: 0 <= i < n ==> p(s[i])
    ensures n < |s| ==> !p(s[n])
  {
    if s == "" || !p(s[0]) then 0
    else
      var m := Span(s[1..], p);
      assert forall i :: 0 < i < m + 1 ==> s[i] == s[1..][i - 1];
      m + 1
  }

  const ULONG_MAX: U32 := TWO32 - 1

  /** The longest digit prefix, read in `base` and clamped to the 32-bit unsigned long of Windows. */
  function Magnitude(s: string, base: nat): (r: Option<U32>)
    requires base == 10 || base == 16
  {
    var n := Span(s, c => IsDigit(c, base));
    var v := ValueOf(s[..n], base);
    if v > ULONG_MAX then None else Some(v)
  }

  /** strtoul on a NUL-terminated copy of `s`: spaces, one sign, an optional 0x in base 16, digits. */
  function StrToUl(s: string, base: nat): U32
    requires base == 10 || base == 16
  {
    var t := s[Span(s, IsCSpace)..];
    if t != "" && (t[0] == '-' || t[0] == '+') then Unsigned(t[1..], base, t[0] == '-')
    else Unsigned(t, base, false)
  }

  function Unsigned(s: string, base: nat, negative: bool): U32
    requires base == 10 || base == 16
  {
    Signed(Magnitude(if base == 16 && HasHexPrefix(s) then s[2..] else s, base), negative)
  }

  /** Overflow saturates whatever the sign; a minus negates in the unsigned type. */
  function Signed(magnitude: Option<U32>, negative: bool): U32 {
    match magnitude
    case None => ULONG_MAX
    case Some(v) => if negative && v > 0 then TWO32 - v else v
  }

  predicate HasHexPrefix(s: string) {
    |s| > 2 && s[0] == '0' && (s[1] == 'x' || s[1] == 'X')
  }

  lemma SpanAll(s: string, p: char -> bool)
    requires forall i :: 0 <= i < |s| ==> p(s[i])
    ensures Span(s, p) == |s|
  {
  }

  lemma SpanThen(s: string, t: string, p: char -> bool)
    requires forall i :: 0 <= i < |s| ==> p(s[i])
    requires t == "" || !p(t[0])
    ensures Span(s + t, p) == |s|
    ensures (s + t)[|s|..] == t && (s + t)[..|s|] == s
  {
    assert t != "" ==> (s + t)[|s|] == t[0];
    assert forall i :: 0 <= i < |s| ==> (s + t)[i] == s[i];
  }

  lemma MagnitudeOfDigits(s: string, base: nat)
    requires base == 10 || base == 16
    requires AllDigits(s, base)
    ensures Magnitude(s, base) == if ValueOf(s, base) > ULONG_MAX then None else Some(ValueOf(s, base))
  {
    SpanAll(s, c => IsDigit(c, base));
    assert s[..|s|] == s;
  }

  /** Without spaces, sign or prefix the text itself is read. */
  lemma PlainRead(s: string, base: nat)
    requires base == 10 || base == 16
    requires s != "" && s[Span(s, IsCSpace)..] == s && s[0] != '-' && s[0] != '+' && !HasHexPrefix(s)
    ensures StrToUl(s, base) == Signed(Magnitude(s, base), false)
  {
  }

  /** A plain digit string is read as its value, saturating. */
  lemma StrToUlDigits(s: string, base: nat)
    requires base == 10 || base == 16
    requires AllDigits(s, base)
    ensures StrToUl(s, base) == if ValueOf(s, base) > ULONG_MAX then ULONG_MAX else ValueOf(s, base)
  {
    MagnitudeOfDigits(s, base);
    if s != "" {
      assert IsDigit(s[0], base);
      assert |s| > 1 ==> IsDigit(s[1], base);
      NoLeadingSpace(s);
      PlainRead(s, base);
    }
  }

  /** The grammar of strtoul: white space, a sign, in base 16 a prefix, the digits, and whatever comes after them. */
  ghost predicate NumberText(s: string, base: nat, ws: string, sign: string, prefix: string, digits: string,
                              rest: string)
  {
    && s == ws + (sign + (prefix + (digits + rest)))
    && (forall i :: 0 <= i < |ws| ==> ws[i] == ' ' || '\t' <= ws[i] <= '\r')
    && (sign == "" || sign == "+" || sign == "-")
    && (prefix == "" || (base == 16 && digits != "" && (prefix == "0x" || prefix == "0X")))
    && AllDigits(digits, base)
    && (rest == "" || Stops(rest[0], base, sign == "" && digits == "", base == 16 && digits == "0"))
  }

  /** `c` ends a number: no digit; before the digits no white space and no sign; behind a lone 0 no x. */
  predicate Stops(c: char, base: nat, first: bool, zero: bool) {
    && !IsDigit(c, base)
    && (first ==> c != ' ' && !('\t' <= c <= '\r') && c != '+' && c != '-')
    && (zero ==> c != 'x' && c != 'X')
  }

  /** What strtoul makes of such a text: the digits' value, clamped, or without a clamp negated modulo 2^32. */
  function NumberValue(sign: string, digits: string, base: nat): int
    requires AllDigits(digits, base)
  {
    var v := ValueOf(digits, base);
    if v > 0xFFFF_FFFF then 0xFFFF_FFFF else if sign == "-" then (0x1_0000_0000 - v) % 0x1_0000_0000 else v
  }

  lemma MagnitudeThen(digits: string, rest: string, base: nat)
    requires base == 10 || base == 16
    requires AllDigits(digits, base) && (rest == "" || !IsDigit(rest[0], base))
    ensures Magnitude(digits + rest, base) == if ValueOf(digits, base) > ULONG_MAX then None else Some(ValueOf(digits, base))
  {
    SpanThen(digits, rest, c => IsDigit(c, base));
  }

  lemma Prefixed(prefix: string, number: string)
    requires (prefix == "0x" || prefix == "0X") && number != ""
    ensures HasHexPrefix(prefix + number) && (prefix + number)[2..] == number
  {
    var s := prefix + number;
    assert s[0] == prefix[0] && s[1] == prefix[1];
  }

  lemma Unprefixed(digits: string, rest: string)
    requires AllDigits(digits, 16) && (rest == "" || Stops(rest[0], 16, false, digits == "0"))
    ensures !HasHexPrefix(digits + rest)
  {
    var s := digits + rest;
    if |digits| >= 2 {
      assert s[1] == digits[1] && IsDigit(digits[1], 16);
    } else if |digits| == 1 {
      assert s[0] == digits[0];
    }
  }

  lemma NumberRead(digits: string, rest: string, base: nat, negative: bool)
    requires base == 10 || base == 16
    requires AllDigits(digits, base) && (rest == "" || !IsDigit(rest[0], base))
    ensures Signed(Magnitude(digits + rest, base), negative) == NumberValue(if negative then "-" else "", digits, base)
  {
    MagnitudeThen(digits, rest, base);
  }

  lemma PrefixDropped(prefix: string, digits: string, rest: string, base: nat, negative: bool)
    requires base == 10 || base == 16
    requires prefix == "" || (base == 16 && digits != "" && (prefix == "0x" || prefix == "0X"))
    requires AllDigits(digits, base) && (rest == "" || Stops(rest[0], base, false, base == 16 && digits == "0"))
    ensures Unsigned(prefix + (digits + rest), base, negative) == Signed(Magnitude(digits + rest, base), negative)
  {
    var number := digits + rest;
    if prefix != "" {
      Prefixed(prefix, number);
    } else {
      assert prefix + number == number;
      if base == 16 {
        Unprefixed(digits, rest);
      }
    }
  }

  lemma PrefixRead(prefix: string, digits: string, rest: string, base: nat, negative: bool)
    requires base == 10 || base == 16
    requires prefix == "" || (base == 16 && digits != "" && (prefix == "0x" || prefix == "0X"))
    requires AllDigits(digits, base) && (rest == "" || Stops(rest[0], base, false, base == 16 && digits == "0"))
    ensures Unsigned(prefix + (digits + rest), base, negative) == NumberValue(if negative then "-" else "", digits, base)
  {
    PrefixDropped(prefix, digits, rest, base, negative);
    NumberRead(digits, rest, base, negative);
  }

  lemma SpacesDropped(ws: string, t: string, base: nat)
    requires base == 10 || base == 16
    requires (forall i :: 0 <= i < |ws| ==> IsCSpace(ws[i])) && (t == "" || !IsCSpace(t[0]))
    ensures StrToUl(ws + t, base) == if t != "" && (t[0] == '-' || t[0] == '+') then Unsigned(t[1..], base, t[0] == '-')
                                     else Unsigned(t, base, false)
  {
    SpanThen(ws, t, IsCSpace);
  }

  lemma SignRead(ws: string, sign: string, number: string, base: nat)
    requires base == 10 || base == 16
    requires (sign == "" || sign == "+" || sign == "-") && forall i :: 0 <= i < |ws| ==> IsCSpace(ws[i])
    requires sign == "" && number != "" ==> !IsCSpace(number[0]) && number[0] != '-' && number[0] != '+'
    ensures StrToUl(ws + (sign + number), base) == Unsigned(number, base, sign == "-")
  {
    var t := sign + number;
    SpacesDropped(ws, t, base);
    if sign == "" {
      assert t == number;
    } else {
      assert t[0] == sign[0] && t[1..] == number;
    }
  }

  lemma NumberStart(prefix: string, digits: string, rest: string, base: nat)
    requires base == 10 || base == 16
    requires prefix == "" || (digits != "" && (prefix == "0x" || prefix == "0X"))
    requires AllDigits(digits, base) && (rest == "" || Stops(rest[0], base, digits == "", base == 16 && digits == "0"))
    ensures var s := prefix + (digits + rest); s != "" ==> !IsCSpace(s[0]) && s[0] != '-' && s[0] != '+'
  {
    var s := prefix + (digits + rest);
    if prefix != "" {
      assert s[0] == prefix[0];
    } else if digits != "" {
      assert s[0] == digits[0] && IsDigit(digits[0], base);
    } else {
      assert s == rest;
    }
  }

  /** strtoul on every text there is: the value of its number, saturating at 2^32 - 1. */
  lemma StrToUlReads(s: string, base: nat, ws: string, sign: string, prefix: string, digits: string, rest: string)
    requires base == 10 || base == 16
    requires NumberText(s, base, ws, sign, prefix, digits, rest)
    ensures StrToUl(s, base) == NumberValue(sign, digits, base)
  {
    if sign == "" {
      NumberStart(prefix, digits, rest, base);
    }
    SignRead(ws, sign, prefix + (digits + rest), base);
    PrefixRead(prefix, digits, rest, base, sign == "-");
  }

  // ---- CAN-ID text --------------------------------------------------------------

  /** The converter's "0x%04X". */
  function FormatCanId(id: nat): string {
    "0x" + ZeroPad(Numeral(id, 16), 4)
  }

  /** parse_can_id_str: an optional 0x, then base-16 strtoul on a 15-character buffer. */
  function ParseCanId(s: string): U32 {
    if |s| == 0 || |s| >= 16 then 0
    else StrToUl(if HasHexPrefix(s) then s[2..] else s, 16)
  }

  lemma Pow16()
    ensures Pow(16, 8) == TWO32
  {
    assert Pow(16, 4) == 0x1_0000;
    assert Pow(16, 8) == 16 * (16 * (16 * (16 * Pow(16, 4))));
  }

  lemma PaddedIdValue(id: U32, width: nat)
    ensures var s := ZeroPad(Numeral(id, 16), width); AllDigits(s, 16) && ValueOf(s, 16) == id
  {
    var digits := Numeral(id, 16);
    NumeralValue(id, 16);
    ZeroPrefixValue(if |digits| < width then width - |digits| else 0, digits, 16);
  }

  /** Every 32-bit CAN-ID survives the converter's text and the loader's parse. */
  lemma CanIdRoundTrip(id: U32)
    ensures ParseCanId(FormatCanId(id)) == id
  {
    var padded := ZeroPad(Numeral(id, 16), 4);
    PaddedIdValue(id, 4);
    Pow16();
    NumeralLength(id, 16, 8);
    assert FormatCanId(id)[2..] == padded;
    StrToUlDigits(padded, 16);
  }

  /** The CAN-ID text the converter writes, character by character. */
  lemma CanIdText(id: U16)
    ensures var u := "0123456789ABCDEF";
            FormatCanId(id) == ['0', 'x', u[id / 0x1000], u[id / 0x100 % 16], u[id / 0x10 % 16], u[id % 16]]
  {
    CanIdDigits(id);
    DigitTable('0', id / 0x1000);
    DigitTable('0', id / 0x100 % 16);
    DigitTable('0', id / 0x10 % 16);
    DigitTable('0', id % 16);
  }

  lemma CanIdDigits(id: U16)
    ensures id / 0x1000 < 16
    ensures FormatCanId(id) == ['0', 'x', DigitChar(id / 0x1000, true), DigitChar(id / 0x100 % 16, true),
                                DigitChar(id / 0x10 % 16, true), DigitChar(id % 16, true)]
  {
    var a, b, c := id / 0x10, id / 0x100, id / 0x1000;
    assert b == a / 0x10 && c == b / 0x10 && c < 16;
    HexStep(b);
    HexStep(a);
    HexStep(id);
    assert ZeroPad(Numeral(id, 16), 4)
        == [DigitChar(c, true), DigitChar(b % 16, true), DigitChar(a % 16, true), DigitChar(id % 16, true)];
  }

  lemma HexStep(n: nat)
    ensures Numeral(n, 16) == (if n < 16 then "" else Numeral(n / 16, 16)) + [DigitChar(n % 16, true)]
  {
  }

  /** "0x07E0", "07E0" or "0x07e0": up to 15 characters that start with hexadecimal digits of either case, with or
      without the prefix, are read as these digits say; a longer text and the empty one are read as 0. */
  lemma CanIdReads(s: string, prefix: string, digits: string, rest: string)
    requires s == prefix + (digits + rest) && (prefix == "" || prefix == "0x" || prefix == "0X")
    requires digits != "" && AllDigits(digits, 16) && (rest == "" || Stops(rest[0], 16, false, digits == "0"))
    ensures ParseCanId("") == 0
    ensures ParseCanId(s) == if |s| > 15 then 0
                             else if ValueOf(digits, 16) > 0xFFFF_FFFF then 0xFFFF_FFFF
                             else ValueOf(digits, 16)
  {
    if |s| < 16 {
      CanIdNumber(s, prefix, digits, rest);
      HexNumberRead(digits, rest);
    }
  }

  lemma CanIdNumber(s: string, prefix: string, digits: string, rest: string)
    requires s == prefix + (digits + rest) && (prefix == "" || prefix == "0x" || prefix == "0X") && |s| < 16
    requires digits != "" && AllDigits(digits, 16) && (rest == "" || Stops(rest[0], 16, false, digits == "0"))
    ensures ParseCanId(s) == StrToUl(digits + rest, 16)
  {
    if prefix == "" {
      assert s == digits + rest;
      Unprefixed(digits, rest);
    } else {
      Prefixed(prefix, digits + rest);
    }
  }

  lemma HexNumberRead(digits: string, rest: string)
    requires digits != "" && AllDigits(digits, 16) && (rest == "" || Stops(rest[0], 16, false, digits == "0"))
    ensures StrToUl(digits + rest, 16) == NumberValue("", digits, 16)
  {
    assert digits + rest == "" + ("" + ("" + (digits + rest)));
    StrToUlReads(digits + rest, 16, "", "", "", digits, rest);
  }

  // ---- delay text ---------------------------------------------------------------

  /** The first `room` characters, as memcpy into a bounded buffer takes them. */
  function Cut(s: string, room: nat): string {
    s[..if |s| > room then room else |s|]
  }

  /** How the converter's integer delay appears in the JSON file. */
  function DelayText(d: int): string {
    if d < 0 then "-" + Dec(-d) else Dec(d)
  }

  /** The loader copies at most 15 characters and reads them with strtoul. */
  function ParseDelay(s: string): U32 {
    StrToUl(Cut(s, 15), 10)
  }

  /** What a delay turns into on its way through the JSON file. */
  function LoadedDelay(d: int): U32 {
    if d >= TWO32 || d <= -TWO32 then ULONG_MAX
    else if d < 0 then TWO32 + d
    else d
  }

  /** The delay the loader reads out of any text: the number at the start of its first 15 characters. */
  lemma DelayReads(s: string, ws: string, sign: string, digits: string, rest: string)
    requires NumberText(if |s| > 15 then s[..15] else s, 10, ws, sign, "", digits, rest)
    ensures ParseDelay(s) == NumberValue(sign, digits, 10)
  {
    assert s[..|s|] == s;
    StrToUlReads(Cut(s, 15), 10, ws, sign, "", digits, rest);
  }

  lemma DecAsDigits(n: nat)
    ensures AllDigits(Dec(n), 10) && ValueOf(Dec(n), 10) == n
  {
    NumeralValue(n, 10);
  }

  /** A numeral cut after k >= 11 digits still denotes more than 32 bits hold. */
  lemma CutNumeralSaturates(n: nat, k: nat)
    requires 11 <= k <= |Dec(n)|
    ensures AllDigits(Dec(n)[..k], 10)
    ensures ValueOf(Dec(n)[..k], 10) > ULONG_MAX
  {
    var m := DecPrefix(n, k);
    DecAsDigits(m);
    NumeralLength(m, 10, 10);
    Pow10();
  }

  lemma Pow10()
    ensures Pow(10, 10) == 10_000_000_000
  {
    assert Pow(10, 5) == 100_000;
    assert Pow(10, 10) == 10 * (10 * (10 * (10 * (10 * Pow(10, 5)))));
  }

  /** The clamped prefix the loader sees denotes the delay, or saturates exactly when the delay does. */
  lemma BufferedNumeral(n: nat, room: nat)
    requires room == 14 || room == 15
    ensures var cut := Cut(Dec(n), room);
            AllDigits(cut, 10) && Magnitude(cut, 10) == if n > ULONG_MAX then None else Some(n)
  {
    var cut := Cut(Dec(n), room);
    if |Dec(n)| > room {
      CutNumeralSaturates(n, room);
      NumeralLength(n, 10, 10);
      Pow10();
    } else {
      assert cut == Dec(n);
      DecAsDigits(n);
    }
    MagnitudeOfDigits(cut, 10);
  }

  lemma NoLeadingSpace(s: string)
    requires s != "" && !IsCSpace(s[0])
    ensures s[Span(s, IsCSpace)..] == s
  {
  }

  lemma DigitsReadPlainly(s: string)
    requires s != "" && AllDigits(s, 10)
    ensures StrToUl(s, 10) == Signed(Magnitude(s, 10), false)
  {
    assert IsDigit(s[0], 10);
    NoLeadingSpace(s);
  }

  lemma DigitsReadNegated(s: string)
    requires AllDigits(s, 10)
    ensures StrToUl("-" + s, 10) == Signed(Magnitude(s, 10), true)
  {
    var t := "-" + s;
    assert t[0] == '-' && t[1..] == s;
    NoLeadingSpace(t);
    MinusRead(t);
  }

  lemma MinusRead(t: string)
    requires t != "" && t[0] == '-' && t[Span(t, IsCSpace)..] == t
    ensures StrToUl(t, 10) == Signed(Magnitude(t[1..], 10), true)
  {
  }

  /** Every integer delay, of either sign and any size, is loaded as LoadedDelay says. */
  lemma DelayCodec(d: int)
    ensures ParseDelay(DelayText(d)) == LoadedDelay(d)
  {
    if d >= 0 {
      BufferedNumeral(d, 15);
      DigitsReadPlainly(Cut(Dec(d), 15));
    } else {
      BufferedNumeral(-d, 14);
      assert Cut(DelayText(d), 15) == "-" + Cut(Dec(-d), 14);
      DigitsReadNegated(Cut(Dec(-d), 14));
    }
  }

  /** A delay survives the file exactly when it is a 32-bit unsigned number. */
  lemma DelaySurvives(d: int)
    ensures ParseDelay(DelayText(d)) == d <==> 0 <= d < TWO32
  {
    DelayCodec(d);
  }
}
