/** Which texts the tokenizer accepts, and why it rejects the others. */
module JsmnAccepts {
  import opened Bytes
  import opened Text
  import opened Json
  import opened Jsmn
  import opened JsonText

  // ---- strings and primitives ---------------------------------------------------------------

  /** What may stand between the quotes of a string: any characters but a quote, a backslash and NUL, and escapes. */
  predicate StringBody(s: string) {
    || s == ""
    || (s[0] != '"' && s[0] != '\\' && s[0] != '\0' && StringBody(s[1..]))
    || (|s| >= 2 && s[0] == '\\' && s[1] in "\"/\\bfrnt" && StringBody(s[2..]))
    || (|s| >= 6 && s[0] == '\\' && s[1] == 'u' && AllDigits(s[2..6], 16) && StringBody(s[6..]))
  }

  lemma FourDigitsRun(js: string, p: nat, q: nat)
    requires p + 4 <= q < |js|
    ensures HexRun(js, p, 4) == Some(p + 4) <== AllDigits(js[p..p + 4], 16)
  {
    if AllDigits(js[p..p + 4], 16) {
      var d := js[p..p + 4];
      assert IsDigit(d[0], 16) && IsDigit(d[1], 16) && IsDigit(d[2], 16) && IsDigit(d[3], 16);
      assert HexRun(js, p + 4, 0) == Some(p + 4);
      assert HexRun(js, p + 3, 1) == Some(p + 4);
      assert HexRun(js, p + 2, 2) == Some(p + 4);
    }
  }

  lemma {:induction false} HexRunDigits(js: string, p: nat, n: nat)
    requires p <= |js| && HexRun(js, p, n).Some?
    ensures var q := HexRun(js, p, n).value; q <= p + n && AllDigits(js[p..q], 16) && (q < p + n ==> Ends(js, q))
    decreases n
  {
    if n > 0 && !Ends(js, p) {
      HexRunDigits(js, p + 1, n - 1);
      var q := HexRun(js, p, n).value;
      assert js[p..q] == [js[p]] + js[p + 1..q];
    }
  }

  lemma Behind(js: string, p: nat, k: nat, q: nat)
    requires p + k <= q <= |js|
    ensures js[p..q][k..] == js[p + k..q] && forall i :: 0 <= i < k ==> js[p..q][i] == js[p + i]
  {
  }

  lemma Within(js: string, p: nat, q: nat, a: nat, b: nat)
    requires p <= q <= |js| && a <= b && p + b <= q
    ensures js[p..q][a..b] == js[p + a..p + b]
  {
    forall i | 0 <= i < b - a ensures js[p..q][a..b][i] == js[p + a..p + b][i] {
      assert js[p..q][a + i] == js[p + a + i];
    }
  }

  /** A string scanned to its closing quote has such a body. */
  lemma {:induction false} ScannedBody(js: string, p: nat)
    requires p <= |js| && StringEnd(js, p).At?
    ensures StringBody(js[p..StringEnd(js, p).pos])
    decreases |js| - p
  {
    var q := StringEnd(js, p).pos;
    if js[p] == '\\' && p + 1 < |js| {
      if IsSimpleEscape(js[p + 1]) {
        ScannedBody(js, p + 2);
        Behind(js, p, 2, q);
      } else {
        ScannedUnicode(js, p);
        ScannedBody(js, p + 6);
        Behind(js, p, 6, q);
        Within(js, p, q, 2, 6);
      }
    } else if js[p] != '"' {
      ScannedBody(js, p + 1);
      Behind(js, p, 1, q);
    }
  }

  lemma ScannedUnicode(js: string, p: nat)
    requires p + 1 < |js| && js[p] == '\\' && js[p + 1] == 'u' && StringEnd(js, p).At?
    ensures p + 6 <= |js| && AllDigits(js[p + 2..p + 6], 16) && StringEnd(js, p) == StringEnd(js, p + 6)
  {
    HexRunDigits(js, p + 2, 4);
  }

  /** And every body with a quote behind it is scanned to that quote. */
  lemma {:induction false} BodyScanned(js: string, p: nat, q: nat)
    requires p <= q < |js| && js[q] == '"' && StringBody(js[p..q])
    ensures StringEnd(js, p) == At(q)
    decreases q - p
  {
    var s := js[p..q];
    if p < q {
      Behind(js, p, 1, q);
      if s[0] != '\\' {
        BodyScanned(js, p + 1, q);
      } else {
        assert s[1] == js[p + 1];
        if s[1] == 'u' {
          Within(js, p, q, 2, 6);
          FourDigitsRun(js, p + 2, q);
          Behind(js, p, 6, q);
          BodyScanned(js, p + 6, q);
        } else {
          Behind(js, p, 2, q);
          BodyScanned(js, p + 2, q);
        }
      }
    }
  }

  /** The scan of a string ends at position `q` exactly when a quote stands there and a body before it. */
  lemma StringEndIff(js: string, p: nat, q: nat)
    requires p <= q <= |js|
    ensures StringEnd(js, p) == At(q) <==> q < |js| && js[q] == '"' && StringBody(js[p..q])
  {
    if StringEnd(js, p) == At(q) {
      ScannedBody(js, p);
    } else if q < |js| && js[q] == '"' && StringBody(js[p..q]) {
      BodyScanned(js, p, q);
    }
  }

  /** The scan of a primitive ends at `q` exactly when printable characters that end nothing stand before it, and the
      end of the text, a NUL or a delimiter there. */
  lemma {:induction false} PrimitiveEndIff(js: string, p: nat, q: nat)
    requires p <= q <= |js|
    ensures PrimitiveEnd(js, p) == At(q) <==>
            && (forall i :: p <= i < q ==> ' ' < js[i] <= '~' && js[i] !in ":,]}")
            && (q == |js| || js[q] in "\0\t\r\n :,]}")
    decreases q - p
  {
    if p < q {
      PrimitiveEndIff(js, p + 1, q);
    }
  }

  // ---- brackets -----------------------------------------------------------------------------------

  predicate Opens(c: char) {
    c == '{' || c == '['
  }

  predicate Closes(c: char) {
    c == '}' || c == ']'
  }

  /** Blanks, colons and commas. */
  predicate Skips(c: char) {
    c == '\t' || c == '\r' || c == '\n' || c == ' ' || c == ':' || c == ','
  }

  /** There is a character at `p`, and it is no NUL. */
  predicate Reaches(js: string, p: nat) {
    p < |js| && js[p] != '\0'
  }

  /** Where the string or primitive at `p` ends. */
  function LeafEnd(js: string, p: nat): (r: Scan)
    requires Reaches(js, p) && !Opens(js[p]) && !Closes(js[p]) && !Skips(js[p])
    ensures r.At? ==> p < r.pos <= |js|
  {
    if js[p] != '"' then PrimitiveEnd(js, p)
    else if StringEnd(js, p + 1).At? then At(StringEnd(js, p + 1).pos + 1)
    else StringEnd(js, p + 1)
  }

  /** The brackets the scan passes from `p` on, outside strings and primitives, up to the end or a NUL. */
  function Brackets(js: string, p: nat): string
    requires p <= |js|
    decreases |js| - p
  {
    if !Reaches(js, p) then ""
    else if Opens(js[p]) || Closes(js[p]) then [js[p]] + Brackets(js, p + 1)
    else if Skips(js[p]) then Brackets(js, p + 1)
    else
      match LeafEnd(js, p)
      case Bad(_) => ""
      case At(q) => Brackets(js, q)
  }

  /** Every closing bracket is of the kind last opened; `due` are the closing brackets still to come, innermost last. */
  predicate Nests(brackets: string, due: string) {
    if brackets == "" then due == ""
    else if brackets[0] == '{' then Nests(brackets[1..], due + "}")
    else if brackets[0] == '[' then Nests(brackets[1..], due + "]")
    else due != "" && due[|due| - 1] == brackets[0] && Nests(brackets[1..], due[..|due| - 1])
  }

  function Closer(kind: Kind): char {
    if kind == Object then '}' else ']'
  }

  /** The closing brackets the open tokens wait for, innermost last. */
  function Due(toks: seq<Tok>): string {
    if toks == [] then ""
    else
      var t := toks[|toks| - 1];
      Due(toks[..|toks| - 1]) + (if IsOpen(t) then [Closer(t.kind)] else "")
  }

  /** Only containers are open. */
  predicate ContainersOpen(toks: seq<Tok>) {
    forall i :: 0 <= i < |toks| && IsOpen(toks[i]) ==> IsContainer(toks[i].kind)
  }

  lemma DueSnoc(toks: seq<Tok>, t: Tok)
    ensures Due(toks + [t]) == Due(toks) + (if IsOpen(t) then [Closer(t.kind)] else "")
  {
    assert (toks + [t])[..|toks|] == toks;
  }

  lemma {:induction false} DueSame(a: seq<Tok>, b: seq<Tok>)
    requires |a| == |b| && forall i :: 0 <= i < |a| ==> IsOpen(a[i]) == IsOpen(b[i]) && a[i].kind == b[i].kind
    ensures Due(a) == Due(b)
  {
    if a != [] {
      DueSame(a[..|a| - 1], b[..|b| - 1]);
    }
  }

  /** The last open token is the innermost bracket, and closing it leaves the ones outside it. */
  lemma {:induction false} DueLast(toks: seq<Tok>, end: nat)
    ensures var i := LastOpen(toks, |toks|);
            if i == -1 then Due(toks) == ""
            else Due(toks) == Due(toks[i := toks[i].(end := end)]) + [Closer(toks[i].kind)]
  {
    if toks != [] {
      var n := |toks| - 1;
      var init, t := toks[..n], toks[n];
      LastOpenPrefix(toks, n);
      if IsOpen(t) {
        var closed := toks[n := t.(end := end)];
        assert closed[..n] == init;
      } else {
        DueLast(init, end);
        var i := LastOpen(toks, n);
        if i >= 0 {
          var closed := toks[i := toks[i].(end := end)];
          assert closed[..n] == init[i := init[i].(end := end)] && closed[n] == t;
        }
      }
    }
  }

  lemma {:induction false} LastOpenPrefix(toks: seq<Tok>, n: nat)
    requires n <= |toks|
    ensures LastOpen(toks, n) == LastOpen(toks[..n], n)
    decreases n
  {
    if n > 0 && !IsOpen(toks[n - 1]) {
      LastOpenPrefix(toks, n - 1);
      LastOpenPrefix(toks[..n], n - 1);
      assert toks[..n][..n - 1] == toks[..n - 1];
    }
  }

  /** What the scan decides: nothing wrong, or the first error, with `due` closing brackets to come and room for `room`
      more tokens. No token is looked at: the brackets are a stack. */
  function Verdict(js: string, p: nat, due: string, room: int): Option<Error>
    requires p <= |js|
    decreases |js| - p
  {
    if !Reaches(js, p) then if due == "" then None else Some(Part)
    else if Closes(js[p]) then
      if due == "" || due[|due| - 1] != js[p] then Some(Inval) else Verdict(js, p + 1, due[..|due| - 1], room)
    else if Skips(js[p]) then Verdict(js, p + 1, due, room)
    else if Opens(js[p]) then
      if room <= 0 then Some(NoMem) else Verdict(js, p + 1, due + (if js[p] == '{' then "}" else "]"), room - 1)
    else
      match LeafEnd(js, p)
      case Bad(error) => Some(error)
      case At(q) => if room <= 0 then Some(NoMem) else Verdict(js, q, due, room - 1)
  }

  lemma BumpDue(toks: seq<Tok>, super: int)
    requires -1 <= super < |toks|
    ensures Due(Bump(toks, super)) == Due(toks) && (ContainersOpen(toks) ==> ContainersOpen(Bump(toks, super)))
  {
    DueSame(toks, Bump(toks, super));
  }

  lemma OpenDue(s: State, kind: Kind, cap: nat)
    requires -1 <= s.super < |s.toks| < cap && IsContainer(kind) && ContainersOpen(s.toks)
    ensures var r := OpenBracket(s, kind, cap);
            r.Next? && Due(r.s.toks) == Due(s.toks) + [Closer(kind)] && ContainersOpen(r.s.toks)
  {
    BumpDue(s.toks, s.super);
    DueSnoc(Bump(s.toks, s.super), Tok(kind, s.pos, -1, 0));
  }

  lemma LeafDue(s: State, kind: Kind, start: nat, end: nat, next: nat, cap: nat)
    requires -1 <= s.super < |s.toks| < cap && ContainersOpen(s.toks)
    ensures var r := Leaf(s, kind, start, end, next, cap);
            r.Next? && Due(r.s.toks) == Due(s.toks) && ContainersOpen(r.s.toks)
  {
    var more := s.toks + [Tok(kind, start, end, 0)];
    DueSnoc(s.toks, Tok(kind, start, end, 0));
    BumpDue(more, s.super);
  }

  lemma CloseDue(s: State, kind: Kind)
    requires IsContainer(kind) && ContainersOpen(s.toks)
    ensures var r, due := CloseBracket(s, kind), Due(s.toks);
            if due == "" || due[|due| - 1] != Closer(kind) then r == Stop(Inval)
            else r.Next? && Due(r.s.toks) == due[..|due| - 1] && ContainersOpen(r.s.toks)
  {
    DueLast(s.toks, s.pos + 1);
  }

  /** The result of one round is what one step of the stack says. */
  predicate Agrees(js: string, s: State, r: StepResult, cap: nat)
    requires s.pos <= |js| && (r.Next? ==> r.s.pos <= |js|)
  {
    match r
    case Stop(error) => Verdict(js, s.pos, Due(s.toks), cap - |s.toks|) == Some(error)
    case Next(s') => |s'.toks| <= cap && ContainersOpen(s'.toks)
                     && Verdict(js, s.pos, Due(s.toks), cap - |s.toks|) == Verdict(js, s'.pos, Due(s'.toks), cap - |s'.toks|)
  }

  lemma OpenVerdict(js: string, s: State, cap: nat)
    requires Sane(js, s) && !Ends(js, s.pos) && |s.toks| <= cap && ContainersOpen(s.toks)
    requires Opens(js[s.pos])
    ensures Agrees(js, s, Step(js, s, cap), cap)
  {
    if |s.toks| < cap {
      OpenDue(s, if js[s.pos] == '{' then Object else Array, cap);
    }
  }

  lemma CloseVerdict(js: string, s: State, cap: nat)
    requires Sane(js, s) && !Ends(js, s.pos) && |s.toks| <= cap && ContainersOpen(s.toks)
    requires Closes(js[s.pos])
    ensures Agrees(js, s, Step(js, s, cap), cap)
  {
    CloseDue(s, if js[s.pos] == '}' then Object else Array);
  }

  lemma StringVerdict(js: string, s: State, cap: nat)
    requires Sane(js, s) && !Ends(js, s.pos) && |s.toks| <= cap && ContainersOpen(s.toks) && js[s.pos] == '"'
    ensures Agrees(js, s, Step(js, s, cap), cap)
  {
    var r := StringEnd(js, s.pos + 1);
    if r.At? && |s.toks| < cap {
      LeafDue(s, String, s.pos + 1, r.pos, r.pos + 1, cap);
    }
  }

  lemma PrimitiveVerdict(js: string, s: State, cap: nat)
    requires Sane(js, s) && !Ends(js, s.pos) && |s.toks| <= cap && ContainersOpen(s.toks)
    requires !Opens(js[s.pos]) && !Closes(js[s.pos]) && !Skips(js[s.pos]) && js[s.pos] != '"'
    ensures Agrees(js, s, Step(js, s, cap), cap)
  {
    var r := PrimitiveEnd(js, s.pos);
    if r.At? && |s.toks| < cap {
      LeafDue(s, Primitive, s.pos, r.pos, r.pos, cap);
    }
  }

  /** One round of the tokenizer is one step of the stack. */
  lemma StepVerdict(js: string, s: State, cap: nat)
    requires Sane(js, s) && !Ends(js, s.pos) && |s.toks| <= cap && ContainersOpen(s.toks)
    ensures Agrees(js, s, Step(js, s, cap), cap)
  {
    var c := js[s.pos];
    if Opens(c) {
      OpenVerdict(js, s, cap);
    } else if Closes(c) {
      CloseVerdict(js, s, cap);
    } else if c == '"' {
      StringVerdict(js, s, cap);
    } else if !Skips(c) {
      PrimitiveVerdict(js, s, cap);
    }
  }

  predicate Decides(v: Option<Error>, r: Parsed) {
    match v
    case None => r.Tokens?
    case Some(error) => r == Failed(error)
  }

  lemma DecidedByStep(js: string, s: State, cap: nat, v: Option<Error>)
    requires Sane(js, s) && !Ends(js, s.pos)
    requires var r := Step(js, s, cap); if r.Stop? then v == Some(r.error) else Decides(v, Parse(js, r.s, cap))
    ensures Decides(v, Parse(js, s, cap))
  {
  }

  lemma DecidedAtEnd(js: string, s: State, cap: nat)
    requires Sane(js, s) && Ends(js, s.pos)
    ensures Decides(Verdict(js, s.pos, Due(s.toks), cap - |s.toks|), Parse(js, s, cap))
  {
    DueLast(s.toks, 0);
  }

  /** The tokenizer's search for open tokens is a stack of brackets: on every text it succeeds or fails, and with the
      same error, as the stack says. */
  lemma {:induction false} ParseVerdict(js: string, s: State, cap: nat)
    requires Sane(js, s) && |s.toks| <= cap && ContainersOpen(s.toks)
    ensures Decides(Verdict(js, s.pos, Due(s.toks), cap - |s.toks|), Parse(js, s, cap))
    decreases |js| - s.pos
  {
    if Ends(js, s.pos) {
      DecidedAtEnd(js, s, cap);
    } else {
      StepVerdict(js, s, cap);
      var r := Step(js, s, cap);
      if r.Next? {
        ParseVerdict(js, r.s, cap);
      }
      DecidedByStep(js, s, cap, Verdict(js, s.pos, Due(s.toks), cap - |s.toks|));
    }
  }

  lemma NestsCons(c: char, rest: string, due: string)
    ensures Nests([c] + rest, due) <==>
            if c == '{' then Nests(rest, due + "}") else if c == '[' then Nests(rest, due + "]")
            else due != "" && due[|due| - 1] == c && Nests(rest, due[..|due| - 1])
  {
    assert ([c] + rest)[1..] == rest;
  }

  /** From `p` on the scan succeeds, there is room for its tokens, and its brackets close the ones due. */
  predicate Acceptable(js: string, p: nat, due: string, room: int)
    requires p <= |js|
  {
    var c := CountFrom(js, p);
    c.Count? && (c.n == 0 || c.n <= room) && Nests(Brackets(js, p), due)
  }

  lemma OpenAcceptable(js: string, p: nat, due: string, room: int)
    requires Reaches(js, p) && Opens(js[p])
    ensures Acceptable(js, p, due, room)
       <==> room > 0 && Acceptable(js, p + 1, due + (if js[p] == '{' then "}" else "]"), room - 1)
  {
    NestsCons(js[p], Brackets(js, p + 1), due);
  }

  lemma CloseAcceptable(js: string, p: nat, due: string, room: int)
    requires Reaches(js, p) && Closes(js[p])
    ensures Acceptable(js, p, due, room)
       <==> due != "" && due[|due| - 1] == js[p] && Acceptable(js, p + 1, due[..|due| - 1], room)
  {
    NestsCons(js[p], Brackets(js, p + 1), due);
  }

  lemma LeafAcceptable(js: string, p: nat, due: string, room: int)
    requires Reaches(js, p) && !Opens(js[p]) && !Closes(js[p]) && !Skips(js[p])
    ensures var r := LeafEnd(js, p);
            Acceptable(js, p, due, room) <==> r.At? && room > 0 && Acceptable(js, r.pos, due, room - 1)
  {
  }

  lemma {:induction false} VerdictAcceptable(js: string, p: nat, due: string, room: int)
    requires p <= |js|
    ensures Verdict(js, p, due, room).None? <==> Acceptable(js, p, due, room)
    decreases |js| - p
  {
    if Reaches(js, p) {
      if Opens(js[p]) {
        OpenAcceptable(js, p, due, room);
        VerdictAcceptable(js, p + 1, due + (if js[p] == '{' then "}" else "]"), room - 1);
      } else if Closes(js[p]) {
        CloseAcceptable(js, p, due, room);
        VerdictAcceptable(js, p + 1, if due == "" then "" else due[..|due| - 1], room);
      } else if Skips(js[p]) {
        VerdictAcceptable(js, p + 1, due, room);
      } else {
        LeafAcceptable(js, p, due, room);
        var r := LeafEnd(js, p);
        if r.At? {
          VerdictAcceptable(js, r.pos, due, room - 1);
        }
      }
    }
  }

  /** Exactly the texts accepted: their strings and primitives can be scanned, every bracket is closed by one of its own
      kind, innermost first, and there is room for the tokens. */
  lemma AcceptedIff(js: string, cap: nat)
    ensures Parse(js, START, cap).Tokens? <==>
            CountFrom(js, 0).Count? && CountFrom(js, 0).n <= cap && Nests(Brackets(js, 0), "")
  {
    ParseVerdict(js, START, cap);
    VerdictAcceptable(js, 0, "", cap);
  }

  // ---- what the tokens delimit ------------------------------------------------------------------

  /** The characters at the token's ends are its own kind's. An open container has its opening bracket only. */
  predicate Marked(js: string, t: Tok) {
    match t.kind
    case Object =>
      0 <= t.start < |js| && js[t.start] == '{' && (t.end != -1 ==> t.start + 2 <= t.end <= |js| && js[t.end - 1] == '}')
    case Array =>
      0 <= t.start < |js| && js[t.start] == '[' && (t.end != -1 ==> t.start + 2 <= t.end <= |js| && js[t.end - 1] == ']')
    case String =>
      0 < t.start <= t.end < |js| && js[t.start - 1] == '"' && js[t.end] == '"' && StringBody(js[t.start..t.end])
    case Primitive =>
      0 <= t.start < t.end <= |js| && forall i :: t.start <= i < t.end ==> ' ' < js[i] <= '~' && js[i] !in ":,]}"
  }

  predicate AllMarked(js: string, toks: seq<Tok>, pos: nat) {
    forall i :: 0 <= i < |toks| ==> Marked(js, toks[i]) && toks[i].start < pos
  }

  lemma BumpMarked(js: string, toks: seq<Tok>, super: int, pos: nat)
    requires -1 <= super < |toks| && AllMarked(js, toks, pos)
    ensures AllMarked(js, Bump(toks, super), pos)
  {
  }

  lemma MoreMarked(js: string, toks: seq<Tok>, t: Tok, pos: nat, next: nat)
    requires AllMarked(js, toks, pos) && pos <= next && Marked(js, t) && t.start < next
    ensures AllMarked(js, toks + [t], next)
  {
  }

  lemma OpenMarked(js: string, s: State, kind: Kind, cap: nat)
    requires Sane(js, s) && s.pos < |js| && AllMarked(js, s.toks, s.pos)
    requires (kind == Object && js[s.pos] == '{') || (kind == Array && js[s.pos] == '[')
    ensures var r := OpenBracket(s, kind, cap); r.Next? ==> AllMarked(js, r.s.toks, r.s.pos)
  {
    BumpMarked(js, s.toks, s.super, s.pos);
    MoreMarked(js, Bump(s.toks, s.super), Tok(kind, s.pos, -1, 0), s.pos, s.pos + 1);
  }

  lemma CloseMarked(js: string, s: State, kind: Kind)
    requires Sane(js, s) && s.pos < |js| && AllMarked(js, s.toks, s.pos)
    requires (kind == Object && js[s.pos] == '}') || (kind == Array && js[s.pos] == ']')
    ensures var r := CloseBracket(s, kind); r.Next? ==> AllMarked(js, r.s.toks, r.s.pos)
  {
    var i := LastOpen(s.toks, |s.toks|);
    if i >= 0 && s.toks[i].kind == kind {
      assert Marked(js, s.toks[i].(end := s.pos + 1));
    }
  }

  lemma LeafStepMarked(js: string, s: State, t: Tok, next: nat, cap: nat)
    requires Sane(js, s) && AllMarked(js, s.toks, s.pos) && s.pos <= next && Marked(js, t) && 0 <= t.start < next
    requires t.size == 0 && t.start <= t.end
    ensures var r := Leaf(s, t.kind, t.start, t.end, next, cap); r.Next? ==> AllMarked(js, r.s.toks, r.s.pos)
  {
    MoreMarked(js, s.toks, t, s.pos, next);
    BumpMarked(js, s.toks + [t], s.super, next);
  }

  lemma StringMarked(js: string, s: State, cap: nat)
    requires Sane(js, s) && !Ends(js, s.pos) && AllMarked(js, s.toks, s.pos) && js[s.pos] == '"'
    ensures var r := Step(js, s, cap); r.Next? ==> AllMarked(js, r.s.toks, r.s.pos)
  {
    var r := StringEnd(js, s.pos + 1);
    if r.At? {
      StringEndIff(js, s.pos + 1, r.pos);
      LeafStepMarked(js, s, Tok(String, s.pos + 1, r.pos, 0), r.pos + 1, cap);
    }
  }

  lemma PrimitiveMarked(js: string, s: State, cap: nat)
    requires Sane(js, s) && !Ends(js, s.pos) && AllMarked(js, s.toks, s.pos)
    requires js[s.pos] != '"' && !Skips(js[s.pos]) && !Opens(js[s.pos]) && !Closes(js[s.pos])
    ensures var r := Step(js, s, cap); r.Next? ==> AllMarked(js, r.s.toks, r.s.pos)
  {
    var r := PrimitiveEnd(js, s.pos);
    if r.At? {
      PrimitiveEndIff(js, s.pos, r.pos);
      LeafStepMarked(js, s, Tok(Primitive, s.pos, r.pos, 0), r.pos, cap);
    }
  }

  lemma StepMarked(js: string, s: State, cap: nat)
    requires Sane(js, s) && !Ends(js, s.pos) && AllMarked(js, s.toks, s.pos)
    ensures var r := Step(js, s, cap); r.Next? ==> AllMarked(js, r.s.toks, r.s.pos)
  {
    var c := js[s.pos];
    if Opens(c) {
      OpenMarked(js, s, if c == '{' then Object else Array, cap);
    } else if Closes(c) {
      CloseMarked(js, s, if c == '}' then Object else Array);
    } else if c == '"' {
      StringMarked(js, s, cap);
    } else if !Skips(c) {
      PrimitiveMarked(js, s, cap);
    }
  }

  /** Whatever the text, after a successful parse every object and array token spans from its opening to a closing bracket
      of the same kind, every string token stands between two quotes, and every primitive token holds no delimiter. */
  lemma {:induction false} ParsedMarked(js: string, s: State, cap: nat)
    requires Sane(js, s) && AllMarked(js, s.toks, s.pos)
    ensures var r := Parse(js, s, cap);
            r.Tokens? ==> forall i :: 0 <= i < |r.toks| ==> Marked(js, r.toks[i]) && r.toks[i].end != -1
    decreases |js| - s.pos
  {
    if !Ends(js, s.pos) {
      StepMarked(js, s, cap);
      var r := Step(js, s, cap);
      if r.Next? {
        ParsedMarked(js, r.s, cap);
      }
    }
  }

  // ---- the first token ------------------------------------------------------------------------------

  /** The first character that is no blank, colon or comma. */
  function FirstMark(js: string, p: nat): (q: nat)
    requires p <= |js|
    ensures p <= q <= |js|
    ensures forall i :: p <= i < q ==> Skips(js[i])
    ensures q < |js| ==> !Skips(js[q])
    decreases |js| - p
  {
    if p == |js| || !Skips(js[p]) then p else FirstMark(js, p + 1)
  }

  lemma StepKeepsFirst(js: string, s: State, cap: nat)
    requires Sane(js, s) && !Ends(js, s.pos) && s.toks != []
    ensures var r := Step(js, s, cap); r.Next? ==> r.s.toks != [] && r.s.toks[0].kind == s.toks[0].kind
  {
  }

  lemma {:induction false} FirstKept(js: string, s: State, cap: nat)
    requires Sane(js, s) && s.toks != []
    ensures var r := Parse(js, s, cap); r.Tokens? ==> r.toks != [] && r.toks[0].kind == s.toks[0].kind
    decreases |js| - s.pos
  {
    if !Ends(js, s.pos) {
      StepKeepsFirst(js, s, cap);
      var r := Step(js, s, cap);
      if r.Next? {
        FirstKept(js, r.s, cap);
      }
    }
  }

  /** A tokenized text starts with an object exactly when its first character of any weight is an opening brace. */
  lemma {:induction false} FirstIsObject(js: string, p: nat, cap: nat)
    requires p <= |js|
    ensures var r, q := Parse(js, State(p, [], -1), cap), FirstMark(js, p);
            r.Tokens? ==> (r.toks != [] && r.toks[0].kind == Object <==> q < |js| && js[q] == '{')
    decreases |js| - p
  {
    var s := State(p, [], -1);
    if !Ends(js, p) {
      var r := Step(js, s, cap);
      if Skips(js[p]) {
        FirstIsObject(js, p + 1, cap);
      } else if r.Next? {
        FirstKept(js, r.s, cap);
      }
    }
  }
}
