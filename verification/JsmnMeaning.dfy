/** What the tokenizer makes of a text: tokens inside the text, two passes that agree, and the flattened value. */
module JsmnMeaning {
  import opened Bytes
  import opened Json
  import opened Jsmn
  import opened JsonText

  // ---- every text -----------------------------------------------------------------------------

  /** A token starts and ends inside the text read so far. */
  predicate Placed(t: Tok, pos: nat) {
    0 <= t.start <= pos && (t.end == -1 || t.start <= t.end <= pos)
  }

  predicate AllPlaced(toks: seq<Tok>, pos: nat) {
    forall i :: 0 <= i < |toks| ==> Placed(toks[i], pos)
  }

  lemma StepPlaced(js: string, s: State, cap: nat)
    requires Sane(js, s) && !Ends(js, s.pos) && AllPlaced(s.toks, s.pos)
    ensures var r := Step(js, s, cap); r.Next? ==> AllPlaced(r.s.toks, r.s.pos)
  {
    var r := Step(js, s, cap);
    if r.Next? {
      forall i | 0 <= i < |r.s.toks| ensures Placed(r.s.toks[i], r.s.pos) {
        assert i < |s.toks| ==> Placed(s.toks[i], s.pos);
      }
    }
  }

  /** Whatever the text, a successful parse leaves only closed tokens that lie inside it. */
  lemma {:induction false} ParsedInText(js: string, s: State, cap: nat)
    requires Sane(js, s) && AllPlaced(s.toks, s.pos)
    ensures var r := Parse(js, s, cap);
            r.Tokens? ==> forall i :: 0 <= i < |r.toks| ==> 0 <= r.toks[i].start <= r.toks[i].end <= |js|
    decreases |js| - s.pos
  {
    if !Ends(js, s.pos) {
      StepPlaced(js, s, cap);
      var r := Step(js, s, cap);
      if r.Next? {
        ParsedInText(js, r.s, cap);
      }
    }
  }

  /** How many tokens one round allocates. */
  function Allocated(c: char): nat {
    if c == '}' || c == ']' || IsBlank(c) || c == ':' || c == ',' then 0 else 1
  }

  lemma StepAllocates(js: string, s: State, cap: nat)
    requires Sane(js, s) && !Ends(js, s.pos)
    ensures var r := Step(js, s, cap);
            r.Next? ==> |r.s.toks| == |s.toks| + Allocated(js[s.pos])
                        && CountFrom(js, s.pos) == Plus(Allocated(js[s.pos]), CountFrom(js, r.s.pos))
    ensures Step(js, s, cap) == Stop(NoMem) ==> Allocated(js[s.pos]) == 1 && |s.toks| >= cap
    ensures Step(js, s, cap) == Stop(NoMem) && CountFrom(js, s.pos).Count? ==> CountFrom(js, s.pos).n >= 1
  {
  }

  /** The counting pass counts exactly the tokens a successful parse makes, and the parse never runs out of tokens
      when it has room for as many as were counted. */
  lemma {:induction false} PassesAgree(js: string, s: State, cap: nat)
    requires Sane(js, s)
    ensures var r := Parse(js, s, cap);
            r.Tokens? ==> |s.toks| <= |r.toks| && CountFrom(js, s.pos) == Count(|r.toks| - |s.toks|)
    ensures var c := CountFrom(js, s.pos); c.Count? && |s.toks| + c.n <= cap ==> Parse(js, s, cap) != Failed(NoMem)
    decreases |js| - s.pos
  {
    if !Ends(js, s.pos) {
      StepAllocates(js, s, cap);
      var r := Step(js, s, cap);
      if r.Next? {
        PassesAgree(js, r.s, cap);
      }
    }
  }

  lemma StepWithRoom(js: string, s: State, cap: nat, more: nat)
    requires Sane(js, s) && !Ends(js, s.pos) && cap <= more && Step(js, s, cap) != Stop(NoMem)
    ensures Step(js, s, more) == Step(js, s, cap)
  {
  }

  /** More room changes nothing. */
  lemma {:induction false} RoomSuffices(js: string, s: State, cap: nat, more: nat)
    requires Sane(js, s) && cap <= more && Parse(js, s, cap) != Failed(NoMem)
    ensures Parse(js, s, more) == Parse(js, s, cap)
    decreases |js| - s.pos
  {
    if !Ends(js, s.pos) {
      StepWithRoom(js, s, cap, more);
      var r := Step(js, s, cap);
      if r.Next? {
        RoomSuffices(js, r.s, cap, more);
      }
    }
  }

  // ---- one lexeme ---------------------------------------------------------------------------------

  lemma {:induction false} SkipBlanksParse(js: string, s: State, cap: nat)
    requires Sane(js, s)
    ensures Parse(js, s, cap) == Parse(js, s.(pos := SkipBlanks(js, s.pos)), cap)
    decreases |js| - s.pos
  {
    if s.pos < |js| && IsBlank(js[s.pos]) {
      SkipBlanksParse(js, s.(pos := s.pos + 1), cap);
    }
  }

  /** `js` holds the characters of `a` from `d` on. */
  predicate Copied(a: string, js: string, d: nat) {
    d + |a| <= |js| && forall j :: 0 <= j < |a| ==> js[d + j] == a[j]
  }

  /** Scanning the same characters elsewhere ends at the same place. */
  lemma {:induction false} HexRunElsewhere(a: string, i: nat, n: nat, js: string, d: nat, q: nat)
    requires i <= |a| && Copied(a, js, d)
    requires HexRun(a, i, n) == Some(q) && q < |a| && a[q] != '\0'
    ensures HexRun(js, d + i, n) == Some(d + q)
    decreases n
  {
    if n > 0 && !Ends(a, i) {
      HexRunElsewhere(a, i + 1, n - 1, js, d, q);
    }
  }

  lemma {:induction false} StringEndElsewhere(a: string, i: nat, js: string, d: nat)
    requires i <= |a| && Copied(a, js, d) && StringEnd(a, i).At?
    ensures StringEnd(js, d + i) == At(d + StringEnd(a, i).pos)
    decreases |a| - i, 1
  {
    assert js[d + i] == a[i];
    if a[i] == '\\' && i + 1 < |a| {
      EscapeElsewhere(a, i, js, d);
    } else if a[i] != '"' {
      StringEndElsewhere(a, i + 1, js, d);
    }
  }

  lemma {:induction false} EscapeElsewhere(a: string, i: nat, js: string, d: nat)
    requires i + 1 < |a| && Copied(a, js, d) && StringEnd(a, i).At? && a[i] == '\\'
    ensures StringEnd(js, d + i) == At(d + StringEnd(a, i).pos)
    decreases |a| - i, 0
  {
    assert js[d + i] == a[i] && js[d + (i + 1)] == a[i + 1];
    if IsSimpleEscape(a[i + 1]) {
      StringEndElsewhere(a, i + 2, js, d);
    } else {
      var q := HexRun(a, i + 2, 4).value;
      HexRunElsewhere(a, i + 2, 4, js, d, q);
      StringEndElsewhere(a, q, js, d);
    }
  }

  lemma QuotedScanned(js: string, p: nat, text: string, end: nat)
    requires RawString(text) && Has(js, p, Spelling(Quoted(text)), end)
    ensures StringEnd(js, p + 1) == At(end - 1) && p + 1 <= end - 1 && js[p + 1..end - 1] == text && js[p] == '"'
  {
    var a := text + ['"'];
    forall j | 0 <= j < |a| ensures js[p + 1 + j] == a[j] {
      CharAt(js, p, Spelling(Quoted(text)), end, 1 + j);
    }
    StringEndElsewhere(a, 0, js, p + 1);
    CharAt(js, p, Spelling(Quoted(text)), end, 0);
    var inner := js[p + 1..end - 1];
    forall j | 0 <= j < |text| ensures inner[j] == text[j] {
      assert inner[j] == js[p + 1 + j] == a[j];
    }
  }

  lemma {:induction false} BareScanned(js: string, p: nat, text: string, end: nat, i: nat)
    requires RawPrimitive(text) && Has(js, p, text, end) && Delimited(js, end) && i <= |text|
    ensures PrimitiveEnd(js, p + i) == At(end)
    decreases |text| - i
  {
    if i < |text| {
      BareScanned(js, p, text, end, i + 1);
      CharAt(js, p, text, end, i);
      assert BareChar(text[i]);
    }
  }

  /** What a lexeme standing at `s.pos` and ending at `end` does to the parser. */
  function Effect(s: State, l: Lexeme, end: nat, cap: nat): StepResult
    requires -1 <= s.super < |s.toks|
  {
    match l
    case Open(kind) => OpenBracket(s, kind, cap)
    case Close(kind) => CloseBracket(s, kind)
    case Quoted(_) => if end > 0 then Leaf(s, String, s.pos + 1, end - 1, end, cap) else Stop(Part)
    case Bare(_) => Leaf(s, Primitive, s.pos, end, end, cap)
    case Comma => Next(Separator(s))
    case Colon => Next(State(s.pos + 1, s.toks, |s.toks| - 1))
  }

  lemma LexemeStep(js: string, s: State, l: Lexeme, end: nat, cap: nat)
    requires Sane(js, s) && Legal(l) && LexemeAt(js, s.pos, l, end)
    ensures !Ends(js, s.pos) && Step(js, s, cap) == Effect(s, l, end, cap)
  {
    LegalStart(l);
    CharAt(js, s.pos, Spelling(l), end, 0);
    match l
    case Quoted(text) => QuotedScanned(js, s.pos, text, end);
    case Bare(text) =>
      BareScanned(js, s.pos, text, end, 0);
      assert BareChar(text[0]);
    case _ =>
  }

  lemma NextLexeme(js: string, p: nat, l: Lexeme, rest: seq<Lexeme>) returns (start: nat, end: nat)
    requires p <= |js| && Spells(js, p, [l] + rest)
    ensures start == SkipBlanks(js, p) && LexemeAt(js, start, l, end) && Spells(js, end, rest)
  {
    var ls := [l] + rest;
    assert ls[0] == l && ls[1..] == rest;
    start := SkipBlanks(js, p);
    end := start + |Spelling(l)|;
    assert SpellsAt(js, start, ls);
  }

  lemma ParseStep(js: string, s: State, cap: nat)
    requires Sane(js, s) && !Ends(js, s.pos) && Step(js, s, cap).Next?
    ensures Parse(js, s, cap) == Parse(js, Step(js, s, cap).s, cap)
  {
  }

  lemma EffectEnds(s: State, l: Lexeme, end: nat, cap: nat)
    requires -1 <= s.super < |s.toks| && Legal(l) && end == s.pos + |Spelling(l)|
    ensures var r := Effect(s, l, end, cap); r.Next? ==> r.s.pos == end
  {
  }

  /** Reading one lexeme of a spelled text: where it stands, and the state after it. */
  lemma TakeLexeme(js: string, s: State, l: Lexeme, rest: seq<Lexeme>, cap: nat) returns (p: nat, end: nat)
    requires Sane(js, s) && Legal(l) && Spells(js, s.pos, [l] + rest)
    ensures s.pos <= p <= end && LexemeAt(js, p, l, end) && Spells(js, end, rest)
    ensures var r := Effect(s.(pos := p), l, end, cap);
            r.Next? ==> Sane(js, r.s) && r.s.pos == end && Parse(js, s, cap) == Parse(js, r.s, cap)
  {
    p, end := NextLexeme(js, s.pos, l, rest);
    var at := s.(pos := p);
    SkipBlanksParse(js, s, cap);
    LexemeStep(js, at, l, end, cap);
    EffectEnds(at, l, end, cap);
    if Effect(at, l, end, cap).Next? {
      ParseStep(js, at, cap);
    }
  }

  // ---- a whole value ----------------------------------------------------------------------------------

  /** A closed token that is `f` in kind, child count and, unless it is a container, text. */
  predicate Shows(js: string, t: Tok, f: Token) {
    && t.kind == f.kind && t.size == f.size && 0 <= t.start <= t.end <= |js|
    && (!IsContainer(t.kind) ==> js[t.start..t.end] == f.text)
  }

  predicate AllShow(js: string, toks: seq<Tok>, fs: seq<Token>) {
    |toks| == |fs| && forall i :: 0 <= i < |toks| ==> Shows(js, toks[i], fs[i])
  }

  lemma AllShowAppend(js: string, a: seq<Tok>, fa: seq<Token>, b: seq<Tok>, fb: seq<Token>)
    requires AllShow(js, a, fa) && AllShow(js, b, fb)
    ensures AllShow(js, a + b, fa + fb)
  {
  }

  /** Openness of the first `n` tokens is all that matters to LastOpen. */
  lemma LastOpenSame(a: seq<Tok>, b: seq<Tok>, n: nat)
    requires n <= |a| && n <= |b| && forall i :: 0 <= i < n ==> IsOpen(a[i]) == IsOpen(b[i])
    ensures LastOpen(a, n) == LastOpen(b, n)
  {
  }

  lemma LastOpenIs(toks: seq<Tok>, i: int)
    requires -1 <= i < |toks| && (i >= 0 ==> IsOpen(toks[i])) && forall j :: i < j < |toks| ==> !IsOpen(toks[j])
    ensures LastOpen(toks, |toks|) == i
  {
  }

  lemma LastOpenContainerIs(toks: seq<Tok>, i: int)
    requires 0 <= i < |toks| && IsOpenContainer(toks[i]) && forall j :: i < j < |toks| ==> !IsOpen(toks[j])
    ensures LastOpenContainer(toks, |toks|) == i
  {
  }

  /** The superior token after a value. */
  function SuperAfter(s: State, v: Value): int {
    if Scalar(v) then s.super else LastOpen(s.toks, |s.toks|)
  }

  /** Having parsed a value from `s` on, the parser is at `s'`: one more child, and the value's tokens behind. */
  ghost predicate Parsed(js: string, s: State, v: Value, s': State, made: seq<Tok>)
    requires -1 <= s.super < |s.toks|
  {
    && Sane(js, s') && s.pos <= s'.pos
    && s'.toks == Bump(s.toks, s.super) + made && AllShow(js, made, Flatten(v))
    && s'.super == SuperAfter(s, v)
  }

  /** A leaf adds one closed token, also seen as one more child. */
  lemma LeafAdds(s: State, kind: Kind, start: nat, end: nat, next: nat, cap: nat)
    requires -1 <= s.super < |s.toks| < cap
    ensures Leaf(s, kind, start, end, next, cap)
         == Next(State(next, Bump(s.toks, s.super) + [Tok(kind, start, end, 0)], s.super))
  {
    var t := Tok(kind, start, end, 0);
    assert Bump(s.toks + [t], s.super) == Bump(s.toks, s.super) + [t];
  }

  lemma ParseLeaf(js: string, s: State, l: Lexeme, rest: seq<Lexeme>, cap: nat) returns (s': State, t: Tok)
    requires Sane(js, s) && |s.toks| < cap && Legal(l) && (l.Quoted? || l.Bare?)
    requires Spells(js, s.pos, [l] + rest)
    ensures Sane(js, s') && s.pos <= s'.pos && s'.toks == Bump(s.toks, s.super) + [t] && s'.super == s.super
    ensures Shows(js, t, LeafOf(l)) && Spells(js, s'.pos, rest)
    ensures Parse(js, s, cap) == Parse(js, s', cap)
  {
    var p, end := TakeLexeme(js, s, l, rest, cap);
    t := LeafToken(js, p, l, end);
    LeafAdds(s.(pos := p), t.kind, t.start, t.end, end, cap);
    s' := Effect(s.(pos := p), l, end, cap).s;
    assert s'.pos == end;
  }

  lemma LeafToken(js: string, p: nat, l: Lexeme, end: nat) returns (t: Tok)
    requires Legal(l) && (l.Quoted? || l.Bare?) && LexemeAt(js, p, l, end)
    ensures t == if l.Quoted? then Tok(String, p + 1, end - 1, 0) else Tok(Primitive, p, end, 0)
    ensures p < end && Shows(js, t, LeafOf(l))
  {
    if l.Quoted? {
      QuotedScanned(js, p, l.text, end);
      t := Tok(String, p + 1, end - 1, 0);
    } else {
      BareText(js, p, l.text, end);
      t := Tok(Primitive, p, end, 0);
    }
  }

  lemma BareText(js: string, p: nat, text: string, end: nat)
    requires text != "" && Has(js, p, text, end)
    ensures p < end && js[p..end] == text
  {
  }

  function LeafOf(l: Lexeme): Token
    requires l.Quoted? || l.Bare?
  {
    Token(if l.Quoted? then String else Primitive, l.text, 0)
  }

  /** After an opening bracket the made token is the last open one and superior. */
  ghost predicate Opened(js: string, s: State, kind: Kind, o: State)
    requires -1 <= s.super < |s.toks|
  {
    && Sane(js, o) && s.pos <= o.pos && |o.toks| == |s.toks| + 1 && o.super == |s.toks| && o.toks[..|s.toks|] == Bump(s.toks, s.super)
    && var t := o.toks[|s.toks|]; t.kind == kind && t.size == 0 && 0 <= t.start < o.pos && t.end == -1
  }

  lemma ParseOpen(js: string, s: State, kind: Kind, ls: seq<Lexeme>, cap: nat) returns (o: State)
    requires Sane(js, s) && |s.toks| < cap && IsContainer(kind) && Spells(js, s.pos, [Open(kind)] + ls)
    ensures Opened(js, s, kind, o) && Spells(js, o.pos, ls)
    ensures Parse(js, s, cap) == Parse(js, o, cap)
  {
    var p, end := TakeLexeme(js, s, Open(kind), ls, cap);
    o := Effect(s.(pos := p), Open(kind), end, cap).s;
    assert o.pos == end;
  }

  /** Inside container `m`: it is the last open token. */
  ghost predicate Inside(s: State, m: nat, kind: Kind) {
    && m < |s.toks| && s.toks[m].kind == kind && IsOpen(s.toks[m]) && s.toks[m].start < s.pos
    && LastOpen(s.toks, |s.toks|) == m
  }

  /** Container `m` has been closed with `n` more children, their tokens behind. */
  ghost predicate Closed(js: string, s: State, m: nat, n: nat, s': State, made: seq<Tok>, fs: seq<Token>)
    requires m < |s.toks|
  {
    && Sane(js, s') && AllShow(js, made, fs) && s.pos <= s'.pos
    && s'.toks == s.toks[m := s.toks[m].(size := s.toks[m].size + n, end := s'.pos)] + made
    && s'.super == LastOpen(s.toks, m)
  }

  lemma ParseClose(js: string, s: State, m: nat, kind: Kind, rest: seq<Lexeme>, cap: nat) returns (s': State)
    requires Sane(js, s) && IsContainer(kind) && Inside(s, m, kind) && Spells(js, s.pos, [Close(kind)] + rest)
    ensures Closed(js, s, m, 0, s', [], []) && Spells(js, s'.pos, rest)
    ensures Parse(js, s, cap) == Parse(js, s', cap)
  {
    var p, end := TakeLexeme(js, s, Close(kind), rest, cap);
    CloseAt(s.(pos := p), m, kind);
    s' := Effect(s.(pos := p), Close(kind), end, cap).s;
    assert s'.pos == end;
    ClosedAt(js, s, m, kind, p, s');
  }

  lemma ClosedAt(js: string, s: State, m: nat, kind: Kind, p: nat, s': State)
    requires Inside(s, m, kind) && s.pos <= p && CloseBracket(s.(pos := p), kind) == Next(s') && Sane(js, s')
    ensures Closed(js, s, m, 0, s', [], [])
  {
    CloseAt(s.(pos := p), m, kind);
    assert s'.toks == s'.toks + [];
  }

  lemma CloseAt(s: State, m: nat, kind: Kind)
    requires Inside(s, m, kind)
    ensures var toks := s.toks[m := s.toks[m].(size := s.toks[m].size + 0, end := s.pos + 1)];
            CloseBracket(s, kind) == Next(State(s.pos + 1, toks, LastOpen(s.toks, m)))
  {
    var toks := s.toks[m := s.toks[m].(end := s.pos + 1)];
    LastOpenSame(s.toks, toks, m);
    assert LastOpen(toks, m + 1) == LastOpen(toks, m);
  }

  /** One more child of container `m`, its tokens behind. */
  ghost predicate Item(js: string, s: State, m: nat, s': State, made: seq<Tok>, fs: seq<Token>)
    requires m < |s.toks|
  {
    Sane(js, s') && s.pos <= s'.pos && s'.toks == Bump(s.toks, m) + made && AllShow(js, made, fs)
  }

  lemma ItemInside(js: string, s: State, m: nat, kind: Kind, s': State, made: seq<Tok>, fs: seq<Token>)
    requires Inside(s, m, kind) && Item(js, s, m, s', made, fs)
    ensures Inside(s', m, kind)
  {
    forall j | m < j < |s'.toks| ensures !IsOpen(s'.toks[j]) {
      if j < |s.toks| {
        assert s'.toks[j] == s.toks[j];
      } else {
        assert Shows(js, made[j - |s.toks|], fs[j - |s.toks|]);
      }
    }
    LastOpenIs(s'.toks, m);
  }

  /** The superior token is the container or a key in it. */
  predicate AtContainerOrKey(s: State, m: nat) {
    s.super == m || (0 <= s.super < |s.toks| && !IsContainer(s.toks[s.super].kind))
  }

  /** Between two items: a comma makes the container superior again. */
  lemma ParseComma(js: string, s: State, m: nat, kind: Kind, ls: seq<Lexeme>, cap: nat) returns (s': State)
    requires Sane(js, s) && IsContainer(kind) && Inside(s, m, kind) && AtContainerOrKey(s, m)
    requires Spells(js, s.pos, [Comma] + ls)
    ensures Sane(js, s') && s.pos <= s'.pos && s'.toks == s.toks && s'.super == m && Spells(js, s'.pos, ls)
    ensures Parse(js, s, cap) == Parse(js, s', cap)
  {
    var p, end := TakeLexeme(js, s, Comma, ls, cap);
    LastOpenContainerIs(s.toks, m);
    s' := Effect(s.(pos := p), Comma, end, cap).s;
    assert s'.pos == end;
  }

  /** What separates the first of `n` items from the rest: after it the container is superior if there are more. */
  lemma ParseSeparators(js: string, s: State, m: nat, kind: Kind, n: nat, ls: seq<Lexeme>, cap: nat) returns (s': State)
    requires Sane(js, s) && IsContainer(kind) && Inside(s, m, kind) && AtContainerOrKey(s, m)
    requires Spells(js, s.pos, Separators(n) + ls)
    ensures Sane(js, s') && s.pos <= s'.pos && s'.toks == s.toks && Spells(js, s'.pos, ls) && (n > 1 ==> s'.super == m)
    ensures Inside(s', m, kind)
    ensures Parse(js, s, cap) == Parse(js, s', cap)
  {
    if n > 1 {
      s' := ParseComma(js, s, m, kind, ls, cap);
    } else {
      s' := s;
      assert [] + ls == ls;
    }
  }

  /** One item and then the closing of its container with the remaining ones. */
  lemma ItemThenClosed(js: string, s: State, m: nat, s1: State, first: seq<Tok>, fs: seq<Token>, s': State, others: seq<Tok>,
                       gs: seq<Token>, n: nat, all: seq<Token>)
    requires m < |s.toks| && Item(js, s, m, s1, first, fs)
    requires n > 0 && Closed(js, s1, m, n - 1, s', others, gs) && all == fs + gs
    ensures Closed(js, s, m, n, s', first + others, all)
  {
    AllShowAppend(js, first, fs, others, gs);
    LastOpenSame(s.toks, s1.toks, m);
    var t := s.toks[m].(size := s.toks[m].size + n, end := s'.pos);
    assert s'.toks == s.toks[m := t] + (first + others);
  }

  /** The first of several elements, and the comma behind it if it is not the only one. */
  lemma {:induction false} ParseElem(js: string, s: State, m: nat, vs: seq<Value>, close: seq<Lexeme>, cap: nat)
    returns (s': State, made: seq<Tok>)
    requires Sane(js, s) && Inside(s, m, Array) && vs != [] && s.super == m && LegalValue(vs[0])
    requires |s.toks| + Size(vs[0]) <= cap
    requires Spells(js, s.pos, ElemLexemes(vs) + close)
    ensures Item(js, s, m, s', made, Flatten(vs[0])) && |made| == Size(vs[0])
    ensures Inside(s', m, Array) && (|vs| > 1 ==> s'.super == m) && Spells(js, s'.pos, ElemLexemes(vs[1..]) + close)
    ensures Parse(js, s, cap) == Parse(js, s', cap)
    decreases vs, 0
  {
    var more := ElemLexemes(vs[1..]) + close;
    Reassociate(Lexemes(vs[0]), Separators(|vs|), ElemLexemes(vs[1..]), close);
    var s1;
    s1, made := ParseValue(js, s, vs[0], Separators(|vs|) + more, cap);
    ItemInside(js, s, m, Array, s1, made, Flatten(vs[0]));
    s' := ParseSeparators(js, s1, m, Array, |vs|, more, cap);
    FlattenStands([], vs[0], []);
  }

  /** After the last item: the closing bracket alone. */
  lemma ParseNoMore(js: string, s: State, m: nat, kind: Kind, none: seq<Lexeme>, rest: seq<Lexeme>, fs: seq<Token>, cap: nat)
    returns (s': State)
    requires Sane(js, s) && IsContainer(kind) && Inside(s, m, kind) && none == [] && fs == []
    requires Spells(js, s.pos, none + ([Close(kind)] + rest))
    ensures Closed(js, s, m, 0, s', [], fs) && Spells(js, s'.pos, rest)
    ensures Parse(js, s, cap) == Parse(js, s', cap)
  {
    assert none + ([Close(kind)] + rest) == [Close(kind)] + rest;
    s' := ParseClose(js, s, m, kind, rest, cap);
  }

  lemma {:induction false} ParseElems(js: string, s: State, m: nat, vs: seq<Value>, rest: seq<Lexeme>, cap: nat)
    returns (s': State, made: seq<Tok>)
    requires Sane(js, s) && Inside(s, m, Array) && (vs != [] ==> s.super == m) && LegalElems(vs)
    requires |s.toks| + SizeElems(vs) <= cap
    requires Spells(js, s.pos, ElemLexemes(vs) + ([Close(Array)] + rest))
    ensures Closed(js, s, m, |vs|, s', made, FlattenElems(vs)) && Spells(js, s'.pos, rest)
    ensures Parse(js, s, cap) == Parse(js, s', cap)
    decreases vs, 1
  {
    if vs == [] {
      made := [];
      s' := ParseNoMore(js, s, m, Array, ElemLexemes(vs), rest, FlattenElems(vs), cap);
    } else {
      var s1, first := ParseElem(js, s, m, vs, [Close(Array)] + rest, cap);
      var others;
      s', others := ParseElems(js, s1, m, vs[1..], rest, cap);
      made := first + others;
      ItemThenClosed(js, s, m, s1, first, Flatten(vs[0]), s', others, FlattenElems(vs[1..]), |vs|, FlattenElems(vs));
    }
  }

  /** A key becomes a child of the object, and superior for its value. */
  lemma ParseKey(js: string, s: State, m: nat, key: string, ls: seq<Lexeme>, cap: nat) returns (s': State, k: Tok)
    requires Sane(js, s) && Inside(s, m, Object) && s.super == m && RawString(key) && |s.toks| < cap
    requires Spells(js, s.pos, [Quoted(key)] + ([Colon] + ls))
    ensures Item(js, s, m, s', [k], [Token(String, key, 0)])
    ensures s'.super == |s.toks| && Spells(js, s'.pos, ls)
    ensures Parse(js, s, cap) == Parse(js, s', cap)
  {
    var s1;
    s1, k := ParseLeaf(js, s, Quoted(key), [Colon] + ls, cap);
    s' := ParseColon(js, s1, ls, cap);
  }

  lemma ParseColon(js: string, s: State, ls: seq<Lexeme>, cap: nat) returns (s': State)
    requires Sane(js, s) && Spells(js, s.pos, [Colon] + ls)
    ensures Sane(js, s') && s.pos <= s'.pos && s'.toks == s.toks && s'.super == |s.toks| - 1 && Spells(js, s'.pos, ls)
    ensures Parse(js, s, cap) == Parse(js, s', cap)
  {
    var p, end := TakeLexeme(js, s, Colon, ls, cap);
    s' := Effect(s.(pos := p), Colon, end, cap).s;
    assert s'.pos == end;
  }

  /** A key and its value together. */
  lemma KeyAndValue(js: string, s: State, m: nat, key: string, k: Tok, s1: State, v: Value, s2: State, value: seq<Tok>)
    requires Sane(js, s) && Inside(s, m, Object)
    requires Item(js, s, m, s1, [k], [Token(String, key, 0)]) && s1.super == |s.toks|
    requires Parsed(js, s1, v, s2, value)
    ensures Item(js, s, m, s2, [k.(size := 1)] + value, FlattenMember(Member(key, v)))
    ensures Inside(s2, m, Object) && AtContainerOrKey(s2, m)
  {
    var made, fs := [k.(size := 1)] + value, [KeyToken(key)] + Flatten(v);
    assert Shows(js, [k][0], Token(String, key, 0));
    AllShowAppend(js, [k.(size := 1)], [KeyToken(key)], value, Flatten(v));
    assert s2.toks == Bump(s.toks, m) + made;
    ItemInside(js, s, m, Object, s1, [k], [Token(String, key, 0)]);
    ItemInside(js, s, m, Object, s2, made, fs);
  }

  /** The first of several members, and the comma behind it if it is not the only one. */
  lemma {:induction false} ParseFirstMember(js: string, s: State, m: nat, ms: seq<Member>, close: seq<Lexeme>, cap: nat)
    returns (s': State, made: seq<Tok>)
    requires Sane(js, s) && Inside(s, m, Object) && ms != [] && s.super == m
    requires RawString(ms[0].key) && LegalValue(ms[0].value) && |s.toks| + 1 + Size(ms[0].value) <= cap
    requires Spells(js, s.pos, MemberLexemes(ms) + close)
    ensures Item(js, s, m, s', made, FlattenMember(ms[0])) && |made| == 1 + Size(ms[0].value)
    ensures Inside(s', m, Object) && (|ms| > 1 ==> s'.super == m) && Spells(js, s'.pos, MemberLexemes(ms[1..]) + close)
    ensures Parse(js, s, cap) == Parse(js, s', cap)
    decreases ms, 0
  {
    var key, v, own := ms[0].key, ms[0].value, MemberLexemes(ms[1..]);
    MemberShape(Quoted(key), Lexemes(v), Separators(|ms|), own, close);
    var s1;
    s1, made := ParseMember(js, s, m, ms[0], Separators(|ms|) + (own + close), cap);
    s' := ParseSeparators(js, s1, m, Object, |ms|, own + close, cap);
  }

  lemma {:induction false} ParseMembers(js: string, s: State, m: nat, ms: seq<Member>, rest: seq<Lexeme>, cap: nat)
    returns (s': State, made: seq<Tok>)
    requires Sane(js, s) && Inside(s, m, Object) && (ms != [] ==> s.super == m) && LegalMembers(ms)
    requires |s.toks| + SizeMembers(ms) <= cap
    requires Spells(js, s.pos, MemberLexemes(ms) + ([Close(Object)] + rest))
    ensures Closed(js, s, m, |ms|, s', made, FlattenMembers(ms)) && Spells(js, s'.pos, rest)
    ensures Parse(js, s, cap) == Parse(js, s', cap)
    decreases ms, 1
  {
    if ms == [] {
      made := [];
      s' := ParseNoMore(js, s, m, Object, MemberLexemes(ms), rest, FlattenMembers(ms), cap);
    } else {
      var s1, first := ParseFirstMember(js, s, m, ms, [Close(Object)] + rest, cap);
      var others;
      s', others := ParseMembers(js, s1, m, ms[1..], rest, cap);
      made := first + others;
      ItemThenClosed(js, s, m, s1, first, FlattenMember(ms[0]), s', others, FlattenMembers(ms[1..]), |ms|, FlattenMembers(ms));
    }
  }

  lemma {:induction false} ParseMember(js: string, s: State, m: nat, mem: Member, rest: seq<Lexeme>, cap: nat)
    returns (s': State, made: seq<Tok>)
    requires Sane(js, s) && Inside(s, m, Object) && s.super == m && RawString(mem.key) && LegalValue(mem.value)
    requires |s.toks| + 1 + Size(mem.value) <= cap
    requires Spells(js, s.pos, [Quoted(mem.key)] + ([Colon] + (Lexemes(mem.value) + rest)))
    ensures Item(js, s, m, s', made, FlattenMember(mem)) && |made| == 1 + Size(mem.value)
    ensures Inside(s', m, Object) && AtContainerOrKey(s', m) && Spells(js, s'.pos, rest)
    ensures Parse(js, s, cap) == Parse(js, s', cap)
    decreases mem, 0
  {
    var s1, k := ParseKey(js, s, m, mem.key, Lexemes(mem.value) + rest, cap);
    var value;
    s', value := ParseValue(js, s1, mem.value, rest, cap);
    KeyAndValue(js, s, m, mem.key, k, s1, mem.value, s', value);
    FlattenStands([], mem.value, []);
    made := [k.(size := 1)] + value;
  }

  /** An opened container, filled and closed, is a parsed value. */
  lemma Enclosed(js: string, s: State, o: State, v: Value, n: nat, s': State, inner: seq<Tok>, fs: seq<Token>) returns (made: seq<Tok>)
    requires Sane(js, s) && (v.Arr? || v.Obj?)
    requires Opened(js, s, if v.Arr? then Array else Object, o)
    requires Closed(js, o, |s.toks|, n, s', inner, fs)
    requires Flatten(v) == [Token(if v.Arr? then Array else Object, "", n)] + fs
    ensures Parsed(js, s, v, s', made)
  {
    var m := |s.toks|;
    var t := o.toks[m].(size := n, end := s'.pos);
    made := [t] + inner;
    AllShowAppend(js, [t], [Token(if v.Arr? then Array else Object, "", n)], inner, fs);
    assert o.toks == Bump(s.toks, s.super) + [o.toks[m]];
    assert s'.toks == Bump(s.toks, s.super) + made;
    LastOpenSame(s.toks, o.toks, m);
  }

  lemma OpenedInside(js: string, s: State, kind: Kind, o: State)
    requires -1 <= s.super < |s.toks| && Opened(js, s, kind, o)
    ensures Inside(o, |s.toks|, kind)
  {
    LastOpenIs(o.toks, |s.toks|);
  }

  /** Parsing a spelled value adds one child and the value's flattened tokens. */
  lemma {:induction false} ParseValue(js: string, s: State, v: Value, rest: seq<Lexeme>, cap: nat)
    returns (s': State, made: seq<Tok>)
    requires Sane(js, s) && LegalValue(v) && Spells(js, s.pos, Lexemes(v) + rest) && |s.toks| + Size(v) <= cap
    ensures Parsed(js, s, v, s', made) && Spells(js, s'.pos, rest)
    ensures Parse(js, s, cap) == Parse(js, s', cap)
    decreases v, 1
  {
    match v
    case Str(text) =>
      var t;
      s', t := ParseLeaf(js, s, Quoted(text), rest, cap);
      made := [t];
    case Prim(text) =>
      var t;
      s', t := ParseLeaf(js, s, Bare(text), rest, cap);
      made := [t];
    case Arr(elems) =>
      var inside := ElemLexemes(elems) + ([Close(Array)] + rest);
      Around(Open(Array), ElemLexemes(elems), Close(Array), rest);
      var o := ParseOpen(js, s, Array, inside, cap);
      OpenedInside(js, s, Array, o);
      var inner;
      s', inner := ParseElems(js, o, |s.toks|, elems, rest, cap);
      made := Enclosed(js, s, o, v, |elems|, s', inner, FlattenElems(elems));
    case Obj(members) =>
      var inside := MemberLexemes(members) + ([Close(Object)] + rest);
      Around(Open(Object), MemberLexemes(members), Close(Object), rest);
      var o := ParseOpen(js, s, Object, inside, cap);
      OpenedInside(js, s, Object, o);
      var inner;
      s', inner := ParseMembers(js, o, |s.toks|, members, rest, cap);
      made := Enclosed(js, s, o, v, |members|, s', inner, FlattenMembers(members));
  }

  lemma ShownIsTokenized(js: string, toks: seq<Tok>, v: Value)
    requires AllShow(js, toks, Flatten(v))
    ensures Tokenized(TokensOf(js, toks), v)
  {
    var fs, tok := Flatten(v), TokensOf(js, toks);
    FlattenStands([], v, []);
    assert [] + fs + [] == fs;
    forall i | 0 <= i < |fs| ensures Alike(fs[i], tok[i]) {
      assert Shows(js, toks[i], fs[i]);
    }
    StandsAlike(fs, tok, 0, v);
  }

  lemma ParseEnds(js: string, s: State, cap: nat, fs: seq<Token>)
    requires Sane(js, s) && Spells(js, s.pos, []) && AllShow(js, s.toks, fs)
    ensures Parse(js, s, cap) == Tokens(s.toks)
  {
    SkipBlanksParse(js, s, cap);
    forall i | 0 <= i < |s.toks| ensures !IsOpen(s.toks[i]) {
      assert Shows(js, s.toks[i], fs[i]);
    }
  }

  lemma ParseWhole(js: string, v: Value) returns (toks: seq<Tok>)
    requires SpellsValue(js, v)
    ensures Parse(js, START, Size(v)) == Tokens(toks) && AllShow(js, toks, Flatten(v))
  {
    assert Lexemes(v) + [] == Lexemes(v);
    var s', made := ParseValue(js, START, v, [], Size(v));
    toks := s'.toks;
    assert toks == made;
    ParseEnds(js, s', Size(v), Flatten(v));
  }

  /** What the tokenizer finds in a text that spells a value: in both passes, in any layout, exactly the value's tokens. */
  lemma TextTokenized(js: string, v: Value) returns (toks: seq<Tok>)
    requires SpellsValue(js, v)
    ensures CountFrom(js, 0) == Count(Size(v))
    ensures Parse(js, START, Size(v)) == Tokens(toks) && Tokenized(TokensOf(js, toks), v)
  {
    toks := ParseWhole(js, v);
    ShownIsTokenized(js, toks, v);
    PassesAgree(js, START, Size(v));
  }

  /** A text spells one value at most. */
  lemma SpelledOnce(js: string, v: Value, w: Value)
    requires SpellsValue(js, v) && SpellsValue(js, w)
    ensures v == w
  {
    var toks := TextTokenized(js, v);
    var same := TextTokenized(js, w);
    StandsOnce(TokensOf(js, toks), 0, v, w);
  }
}
