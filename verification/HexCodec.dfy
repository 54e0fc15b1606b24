/** Hexadecimal byte text: the spaced printers, and the two decoders that read it back. */
module HexCodec {
  import opened Bytes
  import opened Seqs
  import opened Text

  /** "%02X" (upper) or f"{x:02x}" (lower). */
  function HexByte(b: Byte, upper: bool): string {
    [DigitChar(b / 16, upper), DigitChar(b % 16, upper)]
  }

  /** Bytes separated by single spaces: the log printers' form and the converter's `hexbytes`. */
  function HexSpaced(bs: seq<Byte>, upper: bool): string {
    if bs == [] then ""
    else if |bs| == 1 then HexByte(bs[0], upper)
    else HexByte(bs[0], upper) + " " + HexSpaced(bs[1..], upper)
  }

  /** The printed bytes, character by character: two digits each, a blank between two bytes. */
  lemma {:induction false} SpacedText(bs: seq<Byte>, upper: bool, k: nat)
    requires k < |bs|
    ensures var s, digits := HexSpaced(bs, upper), if upper then "0123456789ABCDEF" else "0123456789abcdef";
            && |s| == 3 * |bs| - 1
            && s[3 * k] == digits[bs[k] / 16] && s[3 * k + 1] == digits[bs[k] % 16]
            && (k + 1 < |bs| ==> s[3 * k + 2] == ' ')
  {
    DigitTable('0', bs[k] / 16);
    DigitTable('0', bs[k] % 16);
    if k > 0 {
      SpacedText(bs[1..], upper, k - 1);
    } else if |bs| > 1 {
      SpacedText(bs[1..], upper, 0);
    }
  }

  /** The nibbles of `s`: every hexadecimal digit of either case, everything else skipped. */
  function Nibbles(s: string): (d: seq<int>)
    ensures |d| <= |s|
    ensures forall i :: 0 <= i < |d| ==> 0 <= d[i] < 16
  {
    if s == "" then []
    else (if DigitVal(s[0]) >= 0 then [DigitVal(s[0])] else []) + Nibbles(s[1..])
  }

  predicate AllNibbles(d: seq<int>) {
    forall i :: 0 <= i < |d| ==> 0 <= d[i] < 16
  }

  /** Consecutive nibbles joined two by two, an odd last one dropped. */
  function PairUp(d: seq<int>): seq<Byte>
    requires AllNibbles(d)
  {
    seq(|d| / 2, i requires 0 <= i < |d| / 2 => d[2 * i] * 16 + d[2 * i + 1])
  }

  /** What parse_hex_bytes reads out of an arbitrary string. */
  function HexDecode(s: string): seq<Byte> {
    PairUp(Nibbles(s))
  }

  lemma {:induction false} NibblesAppend(s: string, t: string)
    ensures Nibbles(s + t) == Nibbles(s) + Nibbles(t)
  {
    if s == "" {
      assert s + t == t;
    } else {
      var first := if DigitVal(s[0]) >= 0 then [DigitVal(s[0])] else [];
      calc {
        Nibbles(s + t);
        { assert (s + t)[0] == s[0] && (s + t)[1..] == s[1..] + t; }
        first + Nibbles(s[1..] + t);
        { NibblesAppend(s[1..], t); }
        first + (Nibbles(s[1..]) + Nibbles(t));
        (first + Nibbles(s[1..])) + Nibbles(t);
        Nibbles(s) + Nibbles(t);
      }
    }
  }

  lemma NibblesOfByte(b: Byte, upper: bool)
    ensures Nibbles(HexByte(b, upper)) == [b / 16, b % 16]
  {
    var s := HexByte(b, upper);
    assert s[1..][1..] == "";
    assert Nibbles(s[1..]) == [b % 16];
  }

  function NibblesOf(bs: seq<Byte>): (d: seq<int>)
    ensures |d| == 2 * |bs| && AllNibbles(d)
    ensures PairUp(d) == bs
  {
    if bs == [] then []
    else
      var rest := NibblesOf(bs[1..]);
      var d := [bs[0] / 16, bs[0] % 16] + rest;
      assert PairUp(d) == bs by {
        forall i | 0 <= i < |bs| ensures PairUp(d)[i] == bs[i] {
          if i > 0 {
            assert PairUp(rest)[i - 1] == bs[1..][i - 1];
          }
        }
      }
      d
  }

  lemma NibblesAcrossSpace(first: string, rest: string)
    ensures Nibbles(first + " " + rest) == Nibbles(first) + Nibbles(rest)
  {
    NibblesAppend(first + " ", rest);
    NibblesAppend(first, " ");
    assert " "[1..] == "" && Nibbles(" ") == [];
    assert Nibbles(first) + [] == Nibbles(first);
  }

  lemma {:induction false} NibblesOfSpaced(bs: seq<Byte>, upper: bool)
    ensures Nibbles(HexSpaced(bs, upper)) == NibblesOf(bs)
  {
    if bs == [] {
    } else if |bs| == 1 {
      NibblesOfByte(bs[0], upper);
      assert NibblesOf(bs[1..]) == [];
    } else {
      NibblesOfByte(bs[0], upper);
      NibblesOfSpaced(bs[1..], upper);
      NibblesAcrossSpace(HexByte(bs[0], upper), HexSpaced(bs[1..], upper));
    }
  }

  /** parse_hex_bytes inverts both spaced printers, for every byte sequence. */
  lemma HexRoundTrip(bs: seq<Byte>, upper: bool)
    ensures HexDecode(HexSpaced(bs, upper)) == bs
  {
    NibblesOfSpaced(bs, upper);
  }

  function LowerHex(c: char): char {
    if 'A' <= c <= 'F' then (c as int + 32) as char else c
  }

  function KeepHex(s: string): string {
    if s == "" then ""
    else (if DigitVal(s[0]) >= 0 then [LowerHex(s[0])] else "") + KeepHex(s[1..])
  }

  lemma {:induction false} NibblesOfKept(s: string)
    ensures Nibbles(KeepHex(s)) == Nibbles(s)
  {
    if s != "" {
      NibblesOfKept(s[1..]);
      var first := if DigitVal(s[0]) >= 0 then [LowerHex(s[0])] else "";
      NibblesAppend(first, KeepHex(s[1..]));
      if first != "" {
        assert first[1..] == "";
        assert DigitVal(LowerHex(s[0])) == DigitVal(s[0]);
      }
    }
  }

  /** Decoding sees nothing but the hexadecimal digits, whatever their case and spacing. */
  lemma OnlyDigitsMatter(s: string, t: string)
    requires KeepHex(s) == KeepHex(t)
    ensures HexDecode(s) == HexDecode(t)
  {
    NibblesOfKept(s);
    NibblesOfKept(t);
  }

  /** The nibbles among the first `i` characters, counted up as the decoder's loop does. */
  ghost function NibblesUpTo(s: string, i: nat): (d: seq<int>)
    requires i <= |s|
    ensures |d| <= i && AllNibbles(d)
  {
    if i == 0 then []
    else if DigitVal(s[i - 1]) >= 0 then NibblesUpTo(s, i - 1) + [DigitVal(s[i - 1])]
    else NibblesUpTo(s, i - 1)
  }

  lemma {:induction false} NibblesUpToPrefix(s: string, i: nat)
    requires i <= |s|
    ensures NibblesUpTo(s, i) == Nibbles(s[..i])
  {
    if i > 0 {
      NibblesUpToPrefix(s, i - 1);
      assert s[..i] == s[..i - 1] + [s[i - 1]];
      NibblesAppend(s[..i - 1], [s[i - 1]]);
      assert [s[i - 1]][1..] == "";
      assert Nibbles(s[..i - 1]) + [] == Nibbles(s[..i - 1]);
    }
  }

  lemma PairUpPending(d: seq<int>, v: int)
    requires AllNibbles(d) && 0 <= v < 16 && |d| % 2 == 0
    ensures PairUp(d + [v]) == PairUp(d)
  {
  }

  lemma PairUpComplete(d: seq<int>, v: int)
    requires AllNibbles(d) && 0 <= v < 16 && |d| % 2 == 1
    ensures PairUp(d + [v]) == PairUp(d) + [d[|d| - 1] * 16 + v]
  {
  }

  /** parse_hex_bytes: one pass with a pending high nibble `hi`, filling a buffer of |s|/2 + 4 bytes. */
  method ParseHexBytes(s: string) returns (out: array<Byte>, n: nat)
    ensures fresh(out) && out.Length == |s| / 2 + 4
    ensures n == |Nibbles(s)| / 2 <= |s| / 2
    ensures out[..n] == HexDecode(s)
  {
    out := new Byte[|s| / 2 + 4](_ => 0);
    n := 0;
    var hi := -1;
    ghost var d: seq<int> := [];
    for i := 0 to |s|
      invariant d == NibblesUpTo(s, i)
      invariant |d| == if hi < 0 then 2 * n else 2 * n + 1
      invariant hi >= 0 ==> d[|d| - 1] == hi
      invariant out[..n] == PairUp(d)
    {
      var v := DigitVal(s[i]);
      if v >= 0 {
        if hi < 0 {
          PairUpPending(d, v);
          hi := v;
        } else {
          PairUpComplete(d, v);
          out[n] := hi * 16 + v;
          n := n + 1;
          hi := -1;
        }
        d := d + [v];
      }
    }
    NibblesUpToPrefix(s, |s|);
    assert s[..|s|] == s;
  }

  // ---- Python's bytes.fromhex ------------------------------------------------------

  function RemoveSpaces(s: string): string {
    if s == "" then ""
    else (if s[0] == ' ' then "" else [s[0]]) + RemoveSpaces(s[1..])
  }

  /** bytes.fromhex: two adjacent digits per byte, white space only between bytes, anything else an error. */
  function FromHex(s: string): Option<seq<Byte>> {
    if s == "" then Some([])
    else if IsCSpace(s[0]) then FromHex(s[1..])
    else if |s| < 2 || DigitVal(s[0]) < 0 || DigitVal(s[1]) < 0 then None
    else match FromHex(s[2..])
         case None => None
         case Some(rest) => Some([DigitVal(s[0]) * 16 + DigitVal(s[1]) as Byte] + rest)
  }

  /** Digit pairs written out with any white space before, between and after them: `gaps[k]` before pair `k`. */
  function Laid(gaps: seq<string>, his: string, los: string): string
    requires |his| == |los| && |gaps| == |his| + 1
    decreases |gaps|
  {
    if his == "" then gaps[0] else gaps[0] + ([his[0], los[0]] + Laid(gaps[1..], his[1..], los[1..]))
  }

  predicate Blank(gap: string) {
    forall i :: 0 <= i < |gap| ==> gap[i] == ' ' || '\t' <= gap[i] <= '\r'
  }

  /** Each byte is two digits of either case. */
  predicate DigitsOf(bs: seq<Byte>, his: string, los: string) {
    && |his| == |los| == |bs| && AllDigits(his, 16) && AllDigits(los, 16)
    && forall k :: 0 <= k < |bs| ==> bs[k] == DigitVal(his[k]) * 16 + DigitVal(los[k])
  }

  /** The text is these bytes in any such layout. */
  ghost predicate LaidOut(s: string, bs: seq<Byte>, gaps: seq<string>, his: string, los: string) {
    && DigitsOf(bs, his, los) && |gaps| == |bs| + 1 && s == Laid(gaps, his, los)
    && forall k :: 0 <= k < |gaps| ==> Blank(gaps[k])
  }

  lemma {:induction false} SkipGap(gap: string, s: string)
    requires Blank(gap)
    ensures FromHex(gap + s) == FromHex(s)
  {
    if gap == "" {
      assert gap + s == s;
    } else {
      SkipGap(gap[1..], s);
      assert (gap + s)[0] == gap[0] && (gap + s)[1..] == gap[1..] + s;
    }
  }

  lemma FromHexPair(hi: char, lo: char, rest: string)
    requires IsDigit(hi, 16) && IsDigit(lo, 16) && FromHex(rest).Some?
    ensures FromHex([hi, lo] + rest) == Some([DigitVal(hi) * 16 + DigitVal(lo) as Byte] + FromHex(rest).value)
  {
    assert ([hi, lo] + rest)[2..] == rest;
  }

  /** Every text that is bytes in some layout decodes to them. */
  lemma {:induction false} FromHexReads(s: string, bs: seq<Byte>, gaps: seq<string>, his: string, los: string)
    requires LaidOut(s, bs, gaps, his, los)
    ensures FromHex(s) == Some(bs)
    decreases |bs|
  {
    if bs == [] {
      SkipGap(gaps[0], "");
      assert gaps[0] + "" == s;
    } else {
      var rest := Laid(gaps[1..], his[1..], los[1..]);
      FromHexReads(rest, bs[1..], gaps[1..], his[1..], los[1..]);
      SkipGap(gaps[0], [his[0], los[0]] + rest);
      FromHexPair(his[0], los[0], rest);
      assert [bs[0]] + bs[1..] == bs;
    }
  }

  /** Whatever decodes is bytes in some layout, and exactly the bytes decoded. */
  lemma {:induction false} FromHexMeans(s: string) returns (gaps: seq<string>, his: string, los: string)
    requires FromHex(s).Some?
    ensures LaidOut(s, FromHex(s).value, gaps, his, los)
  {
    if s == "" {
      gaps, his, los := [""], "", "";
    } else if IsCSpace(s[0]) {
      gaps, his, los := FromHexMeans(s[1..]);
      gaps := GapGrown(s, FromHex(s).value, gaps, his, los);
    } else {
      gaps, his, los := FromHexMeans(s[2..]);
      ByteBefore(s, FromHex(s[2..]).value, gaps, his, los);
      gaps, his, los := [""] + gaps, [s[0]] + his, [s[1]] + los;
    }
  }

  lemma GapGrown(s: string, bs: seq<Byte>, gaps: seq<string>, his: string, los: string) returns (grown: seq<string>)
    requires s != "" && IsCSpace(s[0]) && LaidOut(s[1..], bs, gaps, his, los)
    ensures LaidOut(s, bs, grown, his, los)
  {
    grown := [[s[0]] + gaps[0]] + gaps[1..];
    assert grown[1..] == gaps[1..];
    assert s == [s[0]] + s[1..] == Laid(grown, his, los);
  }

  lemma ByteBefore(s: string, bs: seq<Byte>, gaps: seq<string>, his: string, los: string)
    requires |s| >= 2 && IsDigit(s[0], 16) && IsDigit(s[1], 16) && LaidOut(s[2..], bs, gaps, his, los)
    ensures LaidOut(s, [DigitVal(s[0]) * 16 + DigitVal(s[1]) as Byte] + bs, [""] + gaps, [s[0]] + his, [s[1]] + los)
  {
    assert ([""] + gaps)[1..] == gaps && ([s[0]] + his)[1..] == his && ([s[1]] + los)[1..] == los;
    assert s == "" + ([s[0], s[1]] + s[2..]);
  }

  /** Only blanks go, wherever they stand. */
  lemma {:induction false} OnlyBlanksGo(s: string)
    ensures RemoveSpaces(s) == Filter(c => c != ' ', s)
  {
    if s != "" {
      OnlyBlanksGo(s[1..]);
    }
  }

  lemma {:induction false} RemoveSpacesAppend(s: string, t: string)
    ensures RemoveSpaces(s + t) == RemoveSpaces(s) + RemoveSpaces(t)
  {
    if s == "" {
      assert s + t == t;
    } else {
      var first := if s[0] == ' ' then "" else [s[0]];
      calc {
        RemoveSpaces(s + t);
        { assert (s + t)[0] == s[0] && (s + t)[1..] == s[1..] + t; }
        first + RemoveSpaces(s[1..] + t);
        { RemoveSpacesAppend(s[1..], t); }
        first + (RemoveSpaces(s[1..]) + RemoveSpaces(t));
        (first + RemoveSpaces(s[1..])) + RemoveSpaces(t);
        RemoveSpaces(s) + RemoveSpaces(t);
      }
    }
  }

  lemma ByteHasNoSpace(b: Byte, upper: bool)
    ensures RemoveSpaces(HexByte(b, upper)) == HexByte(b, upper)
  {
    var s := HexByte(b, upper);
    assert s[1..][1..] == "";
    assert RemoveSpaces(s[1..]) == s[1..];
  }

  lemma FromHexStep(b: Byte, upper: bool, rest: string)
    requires FromHex(rest).Some?
    ensures FromHex(HexByte(b, upper) + rest) == Some([b] + FromHex(rest).value)
  {
    FromHexPair(DigitChar(b / 16, upper), DigitChar(b % 16, upper), rest);
  }

  lemma SpacedWithoutSpaces(bs: seq<Byte>, upper: bool)
    requires bs != []
    ensures RemoveSpaces(HexSpaced(bs, upper)) == HexByte(bs[0], upper) + RemoveSpaces(HexSpaced(bs[1..], upper))
  {
    var first, rest := HexByte(bs[0], upper), HexSpaced(bs[1..], upper);
    ByteHasNoSpace(bs[0], upper);
    if |bs| == 1 {
      assert first + "" == first;
    } else {
      RemoveSpacesAppend(first + " ", rest);
      RemoveSpacesAppend(first, " ");
      assert RemoveSpaces(" ") == "";
      assert first + "" == first;
    }
  }

  /** The converter's decoding of a logged byte list gives back the bytes. */
  lemma {:induction false} FromHexOfSpaced(bs: seq<Byte>, upper: bool)
    ensures FromHex(RemoveSpaces(HexSpaced(bs, upper))) == Some(bs)
  {
    if bs != [] {
      FromHexOfSpaced(bs[1..], upper);
      SpacedWithoutSpaces(bs, upper);
      FromHexStep(bs[0], upper, RemoveSpaces(HexSpaced(bs[1..], upper)));
      assert [bs[0]] + bs[1..] == bs;
    }
  }
}
