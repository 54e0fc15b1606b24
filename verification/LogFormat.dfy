/** The pipe-delimited hex log: the C printers that write it and the Python scanner that reads it. */
module LogFormat {
  import opened Bytes
  import opened Seqs
  import opened Text
  import opened HexCodec

  /** One frame of traffic as the converter sees it. */
  datatype Frame = Frame(ms: nat, tx: bool, canId: U16, uds: seq<Byte>)

  const REQ_PDU := "REQ-PDU"
  const RSP_UDS := "RSP-UDS"

  // ---- printing -------------------------------------------------------------------

  /** A hex line without its newline: shim_log_hex, and both activity-log printers with their fixed tags. */
  function HexLine(ms: nat, tid: nat, tag: string, bytes: seq<Byte>): string {
    Dec(ms) + "|" + (Dec(tid) + "|HEX" + ("  " + "|" + (tag + "|len=" + (Dec(|bytes|) + "|" + HexSpaced(bytes, true)))))
  }

  /** The characters Python's splitlines treats as line ends (a text-mode read turns '\r' into one too). */
  predicate IsLineBreak(c: char) {
    '\n' <= c <= '\r' || '\U{1c}' <= c <= '\U{1e}' || c == '\U{85}' || c == '\U{2028}' || c == '\U{2029}'
  }

  predicate OneLine(s: string) {
    forall i :: 0 <= i < |s| ==> !IsLineBreak(s[i])
  }

  function JoinLines(lines: seq<string>): string {
    if lines == [] then "" else lines[0] + "\n" + JoinLines(lines[1..])
  }

  /** str.splitlines. An empty line is never a record, so "\r\n" may count as two ends. */
  function SplitLines(s: string): seq<string> {
    if s == "" then []
    else
      var k := Span(s, c => !IsLineBreak(c));
      if k == |s| then [s] else [s[..k]] + SplitLines(s[k + 1..])
  }

  lemma {:induction false} SplitJoined(lines: seq<string>)
    requires forall i :: 0 <= i < |lines| ==> OneLine(lines[i])
    ensures SplitLines(JoinLines(lines)) == lines
  {
    if lines != [] {
      var rest := JoinLines(lines[1..]);
      SplitJoined(lines[1..]);
      assert JoinLines(lines) == lines[0] + ("\n" + rest);
      SpanThen(lines[0], "\n" + rest, c => !IsLineBreak(c));
      assert JoinLines(lines)[|lines[0]| + 1..] == rest;
      assert JoinLines(lines)[..|lines[0]|] == lines[0];
    }
  }

  /** What ends a line: exactly these characters, and nothing else splits two texts that contain none of them. */
  lemma LineEnds(a: string, c: char, b: string)
    requires OneLine(a) && OneLine(b) && b != ""
    ensures SplitLines(a + ([c] + b)) ==
            if c in "\n\U{b}\U{c}\r\U{1c}\U{1d}\U{1e}\U{85}\U{2028}\U{2029}" then [a, b] else [a + ([c] + b)]
  {
    var s, rest := a + ([c] + b), [c] + b;
    if IsLineBreak(c) {
      SpanThen(a, rest, x => !IsLineBreak(x));
      assert s[|a| + 1..] == b;
      SpanAll(b, x => !IsLineBreak(x));
    } else {
      SpanAll(s, x => !IsLineBreak(x));
    }
  }

  /** The log file and the lock-protected printer that appends to it. */
  class LogFile {
    var text: string

    constructor (header: string)
      ensures text == header
    {
      text := header;
    }

    /** shim_log_hex: header, then the bytes one at a time with a space between two of them. */
    method LogHex(ms: nat, tid: nat, tag: string, bytes: seq<Byte>)
      modifies this
      ensures text == old(text) + HexLine(ms, tid, tag, bytes) + "\n"
    {
      text := text + (Dec(ms) + "|" + (Dec(tid) + "|HEX" + ("  " + "|" + (tag + "|len=" + (Dec(|bytes|) + "|")))));
      ghost var header := text;
      for i := 0 to |bytes|
        invariant text + HexSpaced(bytes[i..], true) == header + HexSpaced(bytes, true)
      {
        HexSpacedStep(text, bytes, i);
        text := text + HexByte(bytes[i], true);
        if i + 1 < |bytes| {
          text := text + " ";
        }
      }
      assert bytes[|bytes|..] == [] && text + "" == text;
      HexLineHeader(ms, tid, tag, bytes);
      text := text + "\n";
    }
  }

  lemma HexSpacedStep(text: string, bytes: seq<Byte>, i: nat)
    requires i < |bytes|
    ensures text + HexSpaced(bytes[i..], true)
         == text + HexByte(bytes[i], true) + (if i + 1 < |bytes| then " " else "") + HexSpaced(bytes[i + 1..], true)
  {
    assert bytes[i..][0] == bytes[i] && bytes[i..][1..] == bytes[i + 1..];
  }

  lemma Assoc(a: string, b: string, c: string)
    ensures a + b + c == a + (b + c)
  {
  }

  /** A line is its header, up to the last pipe, and its bytes. */
  lemma HexLineHeader(ms: nat, tid: nat, tag: string, bytes: seq<Byte>)
    ensures HexLine(ms, tid, tag, bytes)
         == Dec(ms) + "|" + (Dec(tid) + "|HEX" + ("  " + "|" + (tag + "|len=" + (Dec(|bytes|) + "|")))) + HexSpaced(bytes, true)
  {
    var hex, len := HexSpaced(bytes, true), Dec(|bytes|) + "|";
    var fromTag := tag + "|len=" + len;
    var fromPad := "  " + "|" + fromTag;
    var fromTid := Dec(tid) + "|HEX" + fromPad;
    Assoc(tag + "|len=", len, hex);
    Assoc("  " + "|", fromTag, hex);
    Assoc(Dec(tid) + "|HEX", fromPad, hex);
    Assoc(Dec(ms) + "|", fromTid, hex);
  }

  /** Fields with a pipe between two of them. */
  function Joined(fields: seq<string>): string
    requires fields != []
  {
    if |fields| == 1 then fields[0] else fields[0] + ("|" + Joined(fields[1..]))
  }

  predicate NoPipe(s: string) {
    forall i :: 0 <= i < |s| ==> s[i] != '|'
  }

  predicate PipeFree(fields: seq<string>) {
    fields != [] && forall i :: 0 <= i < |fields| ==> NoPipe(fields[i])
  }

  lemma FirstField(a: string, x: string)
    requires NoPipe(a)
    ensures var s := a + ("|" + x);
            Span(s, c => c != '|') == |a| < |s| && s[..|a|] == a && s[|a| + 1..] == x
  {
    SpanThen(a, "|" + x, c => c != '|');
  }

  lemma SameFirstField(a: string, x: string, b: string, y: string)
    requires NoPipe(a) && NoPipe(b) && a + ("|" + x) == b + ("|" + y)
    ensures a == b && x == y
  {
    FirstField(a, x);
    FirstField(b, y);
  }

  lemma FirstPipe(a: seq<string>)
    requires PipeFree(a)
    ensures Span(Joined(a), c => c != '|') < |Joined(a)| <==> |a| > 1
  {
    if |a| == 1 {
      SpanAll(a[0], c => c != '|');
    } else {
      FirstField(a[0], Joined(a[1..]));
    }
  }

  /** A text is a row of pipe-free fields in one way at most. */
  lemma {:induction false} JoinedOnce(a: seq<string>, b: seq<string>)
    requires PipeFree(a) && PipeFree(b) && Joined(a) == Joined(b)
    ensures a == b
  {
    FirstPipe(a);
    FirstPipe(b);
    if |a| > 1 {
      SameFirstField(a[0], Joined(a[1..]), b[0], Joined(b[1..]));
      JoinedOnce(a[1..], b[1..]);
      assert a == [a[0]] + a[1..] && b == [b[0]] + b[1..];
    }
  }

  lemma DecNoPipe(n: nat)
    ensures NoPipe(Dec(n))
  {
    DecAsDigits(n);
    forall i | 0 <= i < |Dec(n)| ensures Dec(n)[i] != '|' {
      assert IsDigit(Dec(n)[i], 10);
    }
  }

  lemma {:induction false} HexNoPipe(bytes: seq<Byte>)
    ensures NoPipe(HexSpaced(bytes, true))
  {
    if |bytes| > 1 {
      HexNoPipe(bytes[1..]);
    }
  }

  lemma JoinedCons(a: string, fields: seq<string>)
    requires fields != []
    ensures Joined([a] + fields) == a + ("|" + Joined(fields))
  {
    assert ([a] + fields)[1..] == fields;
  }

  lemma ThreeJoined(a: string, b: string, c: string, fields: seq<string>)
    requires fields != []
    ensures Joined([a, b, c] + fields) == a + ("|" + (b + ("|" + (c + ("|" + Joined(fields))))))
  {
    JoinedCons(c, fields);
    JoinedCons(b, [c] + fields);
    JoinedCons(a, [b] + ([c] + fields));
    assert [a, b, c] + fields == [a] + ([b] + ([c] + fields));
  }

  lemma LineJoined(ms: string, tid: string, tag: string, n: string, hex: string)
    ensures ms + "|" + (tid + "|HEX" + ("  " + "|" + (tag + "|len=" + (n + "|" + hex))))
         == Joined([ms, tid, "HEX  ", tag, "len=" + n, hex])
  {
    LineShape(ms, tid, tag, n, hex);
    assert Joined([hex]) == hex;
    JoinedCons("len=" + n, [hex]);
    JoinedCons(tag, ["len=" + n] + [hex]);
    ThreeJoined(ms, tid, "HEX  ", [tag] + (["len=" + n] + [hex]));
    assert [ms, tid, "HEX  ", tag, "len=" + n, hex] == [ms, tid, "HEX  "] + ([tag] + (["len=" + n] + [hex]));
  }

  lemma LineOfFields(ms: string, tid: string, tag: string, n: string, hex: string)
    requires NoPipe(ms) && NoPipe(tid) && NoPipe(tag) && NoPipe(n) && NoPipe(hex)
    ensures PipeFree([ms, tid, "HEX  ", tag, "len=" + n, hex])
    ensures ms + "|" + (tid + "|HEX" + ("  " + "|" + (tag + "|len=" + (n + "|" + hex))))
         == Joined([ms, tid, "HEX  ", tag, "len=" + n, hex])
  {
    LineJoined(ms, tid, tag, n, hex);
    assert NoPipe("len=" + n) && NoPipe("HEX  ");
  }

  /** A printed line is these six pipe-free fields, so it is no others. */
  lemma LineFields(ms: nat, tid: nat, tag: string, bytes: seq<Byte>)
    requires NoPipe(tag)
    ensures var fields := [Dec(ms), Dec(tid), "HEX  ", tag, "len=" + Dec(|bytes|), HexSpaced(bytes, true)];
            PipeFree(fields) && HexLine(ms, tid, tag, bytes) == Joined(fields)
  {
    DecNoPipe(ms);
    DecNoPipe(tid);
    DecNoPipe(|bytes|);
    HexNoPipe(bytes);
    LineOfFields(Dec(ms), Dec(tid), tag, Dec(|bytes|), HexSpaced(bytes, true));
  }

  lemma LineShape(ms: string, tid: string, tag: string, n: string, hex: string)
    ensures ms + "|" + (tid + "|HEX" + ("  " + "|" + (tag + "|len=" + (n + "|" + hex))))
         == ms + ("|" + (tid + ("|" + ("HEX  " + ("|" + (tag + ("|" + ("len=" + n + ("|" + hex)))))))))
  {
    assert tag + "|len=" + (n + "|" + hex) == tag + ("|" + ("len=" + n + ("|" + hex)));
    PadShape(tid, tag + ("|" + ("len=" + n + ("|" + hex))));
  }

  lemma PadShape(tid: string, more: string)
    ensures tid + "|HEX" + ("  " + "|" + more) == tid + ("|" + ("HEX  " + ("|" + more)))
  {
  }

  // ---- scanning -------------------------------------------------------------------

  /** The groups of LINE_RE the converter uses. */
  datatype Match = Match(ms: string, kind: string, hex: string)

  /** Python's \s on a str. */
  predicate IsRegexSpace(c: char) {
    || '\t' <= c <= '\r' || '\U{1c}' <= c <= ' ' || c == '\U{85}' || c == '\U{a0}' || c == '\U{1680}'
    || '\U{2000}' <= c <= '\U{200a}' || c == '\U{2028}' || c == '\U{2029}' || c == '\U{202f}'
    || c == '\U{205f}' || c == '\U{3000}'
  }

  /** `s` without the literal `lit` it must start with. */
  function Literal(s: string, lit: string): Option<string> {
    if lit <= s then Some(s[|lit|..]) else None
  }

  /** The value part of `\d+` followed by `lit`: the digits and what comes after the literal. */
  function Number(s: string, lit: string): (r: Option<(string, string)>)
    ensures r.Some? ==> r.value.0 != "" && AllDigits(r.value.0, 10)
  {
    var n := Span(s, IsDecimal);
    if n == 0 then None
    else match Literal(s[n..], lit)
         case None => None
         case Some(rest) => Some((s[..n], rest))
  }

  function MatchHex(s: string, ms: string, kind: string): (r: Option<Match>)
    ensures r.Some? ==> r.value.ms == ms
  {
    match Number(s, "|")
    case None => None
    case Some((_, hex)) => if hex == "" then None else Some(Match(ms, kind, hex))
  }

  function MatchKind(s: string, ms: string): (r: Option<Match>)
    ensures r.Some? ==> r.value.ms == ms
  {
    if |s| < 7 || (s[..7] != REQ_PDU && s[..7] != RSP_UDS) then None
    else match Literal(s[7..], "|len=")
         case None => None
         case Some(rest) => MatchHex(rest, ms, s[..7])
  }

  function MatchPad(s: string, ms: string): (r: Option<Match>)
    ensures r.Some? ==> r.value.ms == ms
  {
    match Literal(s[Span(s, IsRegexSpace)..], "|")
    case None => None
    case Some(rest) => MatchKind(rest, ms)
  }

  function MatchTid(s: string, ms: string): (r: Option<Match>)
    ensures r.Some? ==> r.value.ms == ms
  {
    match Number(s, "|HEX")
    case None => None
    case Some((_, rest)) => MatchPad(rest, ms)
  }

  /** LINE_RE.match on one line. No two adjacent parts share a character, so no backtracking is needed. */
  function MatchLine(line: string): (r: Option<Match>)
    ensures r.Some? ==> AllDigits(r.value.ms, 10)
  {
    match Number(line, "|")
    case None => None
    case Some((ms, rest)) => MatchTid(rest, ms)
  }

  /** The converter's treatment of one line. */
  function ParseLine(line: string): Option<Frame> {
    match MatchLine(line)
    case None => None
    case Some(m) =>
      match FromHex(RemoveSpaces(m.hex))
      case None => None
      case Some(raw) => if |raw| < 5 then None else Some(FrameOf(ValueOf(m.ms, 10), m.kind == REQ_PDU, raw))
  }

  /** Bytes 2 and 3 are the CAN-ID, the rest from 4 on is UDS; bytes 0 and 1 are dropped. */
  function FrameOf(ms: nat, tx: bool, raw: seq<Byte>): Frame
    requires |raw| >= 5
  {
    Frame(ms, tx, (raw[2] as int) * 0x100 + raw[3], raw[4..])
  }

  function FramesOfLine(line: string): seq<Frame> {
    match ParseLine(line)
    case None => []
    case Some(f) => [f]
  }

  function FramesOfText(text: string): seq<Frame> {
    FlatMap(FramesOfLine, SplitLines(text))
  }

  /** parse_log: the generator's frames, collected in order. */
  method ParseLog(text: string) returns (frames: seq<Frame>)
    ensures frames == FramesOfText(text)
  {
    frames := [];
    var lines := SplitLines(text);
    for i := 0 to |lines|
      invariant frames == FlatMap(FramesOfLine, lines[..i])
    {
      FlatMapSnoc(FramesOfLine, lines, i);
      var parsed := ParseLine(lines[i]);
      if parsed.Some? {
        frames := frames + [parsed.value];
      }
    }
    assert lines[..|lines|] == lines;
  }

  // ---- what the pattern means --------------------------------------------------------

  /** The regular expression read as a grammar: `line` is this concatenation of these character classes. */
  ghost predicate LineIs(line: string, ms: string, tid: string, ws: string, kind: string, len: string, hex: string) {
    && line == ms + "|" + (tid + "|HEX" + (ws + "|" + (kind + "|len=" + (len + "|" + hex))))
    && ms != "" && AllDigits(ms, 10)
    && tid != "" && AllDigits(tid, 10)
    && (forall i :: 0 <= i < |ws| ==> IsRegexSpace(ws[i]))
    && (kind == "REQ-PDU" || kind == "RSP-UDS")
    && len != "" && AllDigits(len, 10)
    && hex != ""
  }

  lemma NumberThen(d: string, lit: string, rest: string)
    requires d != "" && AllDigits(d, 10)
    requires lit != "" && !IsDecimal(lit[0])
    ensures Number(d + lit + rest, lit) == Some((d, rest))
  {
    var s := d + lit + rest;
    assert s == d + (lit + rest);
    SpanThen(d, lit + rest, IsDecimal);
    assert s[..|d|] == d;
    assert (lit + rest)[|lit|..] == rest;
  }

  lemma NumberSplits(s: string, lit: string)
    requires Number(s, lit).Some?
    ensures var (d, rest) := Number(s, lit).value; d != "" && AllDigits(d, 10) && s == d + lit + rest
  {
    var n := Span(s, IsDecimal);
    assert s == s[..n] + s[n..];
    assert s[n..] == lit + s[n..][|lit|..];
  }

  lemma HexThen(len: string, hex: string, ms: string, kind: string)
    requires len != "" && AllDigits(len, 10)
    ensures MatchHex(len + "|" + hex, ms, kind) == if hex == "" then None else Some(Match(ms, kind, hex))
  {
    NumberThen(len, "|", hex);
  }

  lemma KindThen(kind: string, rest: string, ms: string)
    requires kind == REQ_PDU || kind == RSP_UDS
    ensures MatchKind(kind + "|len=" + rest, ms) == MatchHex(rest, ms, kind)
  {
    var s := kind + "|len=" + rest;
    assert s[..7] == kind;
    assert s[7..] == "|len=" + rest;
    assert ("|len=" + rest)[5..] == rest;
  }

  lemma PadThen(ws: string, rest: string, ms: string)
    requires forall i :: 0 <= i < |ws| ==> IsRegexSpace(ws[i])
    ensures MatchPad(ws + "|" + rest, ms) == MatchKind(rest, ms)
  {
    assert ws + "|" + rest == ws + ("|" + rest);
    SpanThen(ws, "|" + rest, IsRegexSpace);
    assert ("|" + rest)[1..] == rest;
  }

  lemma MsAndTidThen(ms: string, tid: string, rest: string)
    requires ms != "" && AllDigits(ms, 10)
    requires tid != "" && AllDigits(tid, 10)
    ensures MatchLine(ms + "|" + (tid + "|HEX" + rest)) == MatchPad(rest, ms)
  {
    NumberThen(ms, "|", tid + "|HEX" + rest);
    NumberThen(tid, "|HEX", rest);
  }

  /** Whatever has the shape of the pattern is matched, with exactly its groups. */
  lemma MatchComplete(line: string, ms: string, tid: string, ws: string, kind: string, len: string, hex: string)
    requires LineIs(line, ms, tid, ws, kind, len, hex)
    ensures MatchLine(line) == Some(Match(ms, kind, hex))
  {
    HexThen(len, hex, ms, kind);
    KindThen(kind, len + "|" + hex, ms);
    PadThen(ws, kind + "|len=" + (len + "|" + hex), ms);
    MsAndTidThen(ms, tid, ws + "|" + (kind + "|len=" + (len + "|" + hex)));
  }

  lemma KindSplits(s: string, ms: string) returns (len: string)
    requires MatchKind(s, ms).Some?
    ensures var m := MatchKind(s, ms).value;
            && (m.kind == REQ_PDU || m.kind == RSP_UDS) && len != "" && AllDigits(len, 10) && m.hex != ""
            && s == m.kind + "|len=" + (len + "|" + m.hex)
  {
    var rest := Literal(s[7..], "|len=").value;
    assert s == s[..7] + s[7..] && s[7..] == "|len=" + rest;
    NumberSplits(rest, "|");
    len := Number(rest, "|").value.0;
  }

  lemma LiteralSplits(s: string, k: nat, lit: string)
    requires k <= |s| && Literal(s[k..], lit).Some?
    ensures s == s[..k] + lit + Literal(s[k..], lit).value
  {
    assert s[k..] == lit + s[k..][|lit|..];
  }

  lemma PadSplits(s: string, ms: string) returns (ws: string, rest: string)
    requires MatchPad(s, ms).Some?
    ensures forall i :: 0 <= i < |ws| ==> IsRegexSpace(ws[i])
    ensures s == ws + "|" + rest && MatchPad(s, ms) == MatchKind(rest, ms)
  {
    var k := Span(s, IsRegexSpace);
    ws, rest := s[..k], Literal(s[k..], "|").value;
    LiteralSplits(s, k, "|");
  }

  /** Whatever is matched has the shape of the pattern. */
  lemma MatchSound(line: string) returns (tid: string, ws: string, len: string)
    requires MatchLine(line).Some?
    ensures var m := MatchLine(line).value; LineIs(line, m.ms, tid, ws, m.kind, len, m.hex)
  {
    NumberSplits(line, "|");
    var (ms, s1) := Number(line, "|").value;
    NumberSplits(s1, "|HEX");
    var (t, s2) := Number(s1, "|HEX").value;
    var w, s3 := PadSplits(s2, ms);
    tid, ws := t, w;
    len := KindSplits(s3, ms);
  }

  /** What the converter takes from a line of the pattern's shape. */
  ghost predicate Read(f: Frame, ms: string, kind: string, hex: string, raw: seq<Byte>) {
    && AllDigits(ms, 10) && FromHex(RemoveSpaces(hex)) == Some(raw) && |raw| >= 5
    && f == Frame(ValueOf(ms, 10), kind == "REQ-PDU", (raw[2] as int) * 0x100 + raw[3], raw[4..])
  }

  /** A line of the shape whose hex text decodes to at least five bytes is read; any other line of the shape is not. */
  lemma ParseLineReads(line: string, ms: string, tid: string, ws: string, kind: string, len: string, hex: string,
                       f: Frame)
    requires LineIs(line, ms, tid, ws, kind, len, hex)
    ensures ParseLine(line) == Some(f) <==> exists raw :: Read(f, ms, kind, hex, raw)
  {
    MatchComplete(line, ms, tid, ws, kind, len, hex);
    if ParseLine(line) == Some(f) {
      assert Read(f, ms, kind, hex, FromHex(RemoveSpaces(hex)).value);
    }
  }

  /** And no line without the shape is. */
  lemma ParseLineMeans(line: string) returns (ms: string, tid: string, ws: string, kind: string, len: string, hex: string)
    requires ParseLine(line).Some?
    ensures LineIs(line, ms, tid, ws, kind, len, hex)
  {
    tid, ws, len := MatchSound(line);
    var m := MatchLine(line).value;
    ms, kind, hex := m.ms, m.kind, m.hex;
  }

  // ---- the round trip ----------------------------------------------------------------

  /** The lines of a shim log: hex dumps, other "ms|tid|detail" events, and comments. */
  datatype LogLine =
    | Hex(ms: nat, tid: nat, tag: string, bytes: seq<Byte>)
    | Note(ms: nat, tid: nat, detail: string)
    | Comment(text: string)

  predicate IsTraffic(tag: string) {
    tag == REQ_PDU || tag == RSP_UDS
  }

  function Print(l: LogLine): string {
    match l
    case Hex(ms, tid, tag, bytes) => HexLine(ms, tid, tag, bytes)
    case Note(ms, tid, detail) => Dec(ms) + "|" + (Dec(tid) + "|" + detail)
    case Comment(text) => text
  }

  /** What the line records for the converter: traffic of at least five bytes. */
  function FramesRecorded(l: LogLine): seq<Frame> {
    if l.Hex? && IsTraffic(l.tag) && |l.bytes| >= 5 then [FrameOf(l.ms, l.tag == REQ_PDU, l.bytes)] else []
  }

  function AllRecorded(ls: seq<LogLine>): seq<Frame> {
    FlatMap(FramesRecorded, ls)
  }

  /** A tag as the printers use it: no line break and no pipe. */
  predicate PlainTag(tag: string) {
    OneLine(tag) && NoPipe(tag)
  }

  /** Events other than hex dumps have names that do not start with HEX; comments do not start with a digit. */
  predicate Printable(l: LogLine) {
    match l
    case Hex(_, _, tag, _) => PlainTag(tag)
    case Note(_, _, detail) => OneLine(detail) && !("HEX" <= detail)
    case Comment(text) => OneLine(text) && (text == "" || !IsDecimal(text[0]))
  }

  lemma DecOneLine(n: nat)
    ensures OneLine(Dec(n)) && AllDigits(Dec(n), 10) && Dec(n) != ""
  {
    DecAsDigits(n);
    forall i | 0 <= i < |Dec(n)| ensures !IsLineBreak(Dec(n)[i]) {
      assert IsDecimal(Dec(n)[i]);
    }
  }

  lemma {:induction false} HexSpacedOneLine(bs: seq<Byte>, upper: bool)
    ensures OneLine(HexSpaced(bs, upper))
    ensures HexSpaced(bs, upper) == "" <==> bs == []
  {
    if |bs| > 1 {
      HexSpacedOneLine(bs[1..], upper);
    }
  }

  lemma OneLineAppend(s: string, t: string)
    requires OneLine(s) && OneLine(t)
    ensures OneLine(s + t)
  {
  }

  lemma PrintOneLine(l: LogLine)
    requires Printable(l)
    ensures OneLine(Print(l))
  {
    if l.Hex? {
      DecOneLine(l.ms);
      DecOneLine(l.tid);
      DecOneLine(|l.bytes|);
      HexSpacedOneLine(l.bytes, true);
      var s4 := Dec(|l.bytes|) + "|" + HexSpaced(l.bytes, true);
      var s3 := l.tag + "|len=" + s4;
      assert OneLine(s3);
      assert OneLine("  " + "|" + s3);
      assert OneLine(Dec(l.tid) + "|HEX" + ("  " + "|" + s3));
    } else if l.Note? {
      DecOneLine(l.ms);
      DecOneLine(l.tid);
      assert OneLine(Dec(l.tid) + "|" + l.detail);
    }
  }

  lemma HexEventScan(ms: string, tid: string, rest: string)
    requires ms != "" && AllDigits(ms, 10)
    requires tid != "" && AllDigits(tid, 10)
    ensures MatchLine(ms + "|" + (tid + "|HEX" + ("  " + "|" + rest))) == MatchKind(rest, ms)
  {
    var pad := "  ";
    assert forall i :: 0 <= i < |pad| ==> pad[i] == ' ';
    PadThen(pad, rest, ms);
    MsAndTidThen(ms, tid, pad + "|" + rest);
  }

  lemma HexLineScan(ms: nat, tid: nat, tag: string, bytes: seq<Byte>)
    ensures MatchLine(HexLine(ms, tid, tag, bytes))
         == MatchKind(tag + "|len=" + (Dec(|bytes|) + "|" + HexSpaced(bytes, true)), Dec(ms))
  {
    DecOneLine(ms);
    DecOneLine(tid);
    HexEventScan(Dec(ms), Dec(tid), tag + "|len=" + (Dec(|bytes|) + "|" + HexSpaced(bytes, true)));
  }

  /** A printed traffic record of n bytes is read back as its frame when n >= 5 and skipped otherwise. */
  lemma TrafficLine(ms: nat, tid: nat, tag: string, bytes: seq<Byte>)
    requires IsTraffic(tag)
    ensures FramesOfLine(HexLine(ms, tid, tag, bytes)) == FramesRecorded(Hex(ms, tid, tag, bytes))
  {
    var hex := HexSpaced(bytes, true);
    HexLineScan(ms, tid, tag, bytes);
    DecOneLine(|bytes|);
    KindThen(tag, Dec(|bytes|) + "|" + hex, Dec(ms));
    HexThen(Dec(|bytes|), hex, Dec(ms), tag);
    HexSpacedOneLine(bytes, true);
    FromHexOfSpaced(bytes, true);
    DecAsDigits(ms);
  }

  /** Hex lines with any other tag are skipped. */
  lemma OtherTagLine(ms: nat, tid: nat, tag: string, bytes: seq<Byte>)
    requires PlainTag(tag) && !IsTraffic(tag)
    ensures FramesOfLine(HexLine(ms, tid, tag, bytes)) == []
  {
    HexLineScan(ms, tid, tag, bytes);
    OtherTagNoKind(tag, Dec(|bytes|) + "|" + HexSpaced(bytes, true), Dec(ms));
  }

  lemma OtherTagNoKind(tag: string, rest: string, ms: string)
    requires PlainTag(tag) && !IsTraffic(tag)
    ensures MatchKind(tag + "|len=" + rest, ms).None?
  {
    var s := tag + "|len=" + rest;
    if |tag| < 7 {
      assert |s| >= 7 ==> s[..7][|tag|] == '|';
    } else {
      assert s[..7] == tag[..7];
      if |tag| > 7 {
        assert s[7..][0] == tag[7];
      } else {
        assert tag[..7] == tag;
      }
    }
  }

  lemma PipeHexPrefix(detail: string)
    ensures "|HEX" <= "|" + detail ==> "HEX" <= detail
  {
    if "|HEX" <= "|" + detail {
      assert detail == ("|" + detail)[1..];
    }
  }

  lemma NotHexEvent(tid: nat, detail: string)
    requires !("HEX" <= detail)
    ensures Number(Dec(tid) + "|" + detail, "|HEX").None?
  {
    DecOneLine(tid);
    PipeHexPrefix(detail);
    assert Dec(tid) + "|" + detail == Dec(tid) + ("|" + detail);
    SpanThen(Dec(tid), "|" + detail, IsDecimal);
  }

  lemma NoteSkipped(ms: nat, tid: nat, detail: string)
    requires !("HEX" <= detail)
    ensures FramesOfLine(Dec(ms) + "|" + (Dec(tid) + "|" + detail)) == []
  {
    DecOneLine(ms);
    NumberThen(Dec(ms), "|", Dec(tid) + "|" + detail);
    NotHexEvent(tid, detail);
  }

  lemma LineRoundTrip(l: LogLine)
    requires Printable(l)
    ensures FramesOfLine(Print(l)) == FramesRecorded(l)
  {
    match l
    case Note(ms, tid, detail) => NoteSkipped(ms, tid, detail);
    case Comment(text) => assert Span(text, IsDecimal) == 0;
    case Hex(ms, tid, tag, bytes) =>
      if IsTraffic(tag) {
        TrafficLine(ms, tid, tag, bytes);
      } else {
        OtherTagLine(ms, tid, tag, bytes);
      }
  }

  function PrintAll(ls: seq<LogLine>): seq<string> {
    seq(|ls|, i requires 0 <= i < |ls| => Print(ls[i]))
  }

  /** Printing any records among any other shim lines and parsing the file gives exactly the traffic, in order. */
  lemma LogFileRoundTrip(ls: seq<LogLine>)
    requires forall i :: 0 <= i < |ls| ==> Printable(ls[i])
    ensures FramesOfText(JoinLines(PrintAll(ls))) == AllRecorded(ls)
  {
    forall i | 0 <= i < |ls| ensures OneLine(PrintAll(ls)[i]) {
      PrintOneLine(ls[i]);
    }
    SplitJoined(PrintAll(ls));
    forall i | 0 <= i < |ls| ensures FramesOfLine(PrintAll(ls)[i]) == FramesRecorded(ls[i]) {
      LineRoundTrip(ls[i]);
    }
    FlatMapSame(FramesOfLine, PrintAll(ls), FramesRecorded, ls);
  }
}
