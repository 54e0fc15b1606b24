/** src/vendor/jsmn.h: from JSON characters to tokens, without parent links and not strict, as it is built here. */
module Jsmn {
  import opened Bytes
  import opened Text
  import opened Json

  /** jsmntok_t. A container still open has `end` -1. */
  datatype Tok = Tok(kind: Kind, start: int, end: int, size: nat)

  datatype Error = NoMem | Inval | Part

  /** Where a scan stopped, or why it failed. */
  datatype Scan = At(pos: nat) | Bad(error: Error)

  /** The token as its reader sees it: type, child count, and the characters it delimits. */
  function TokenOf(js: string, t: Tok): Token {
    Token(t.kind, if 0 <= t.start <= t.end <= |js| then js[t.start..t.end] else "", t.size)
  }

  function TokensOf(js: string, toks: seq<Tok>): seq<Token> {
    seq(|toks|, i requires 0 <= i < |toks| => TokenOf(js, toks[i]))
  }

  predicate IsOpen(t: Tok) {
    t.start != -1 && t.end == -1
  }

  predicate IsContainer(kind: Kind) {
    kind == Object || kind == Array
  }

  predicate Ends(js: string, p: nat)
    requires p <= |js|
  {
    p == |js| || js[p] == '\0'
  }

  predicate IsBlank(c: char) {
    c == '\t' || c == '\r' || c == '\n' || c == ' '
  }

  // ---- jsmn_parse_string --------------------------------------------------------------------

  predicate IsSimpleEscape(c: char) {
    c == '"' || c == '/' || c == '\\' || c == 'b' || c == 'f' || c == 'r' || c == 'n' || c == 't'
  }

  /** Past at most `n` hexadecimal digits; None at a character that is none. */
  function HexRun(js: string, p: nat, n: nat): (r: Option<nat>)
    requires p <= |js|
    ensures r.Some? ==> p <= r.value <= |js|
    decreases n
  {
    if n == 0 || Ends(js, p) then Some(p)
    else if DigitVal(js[p]) < 0 then None
    else HexRun(js, p + 1, n - 1)
  }

  /** The closing quote of the string whose characters start at `p`. */
  function StringEnd(js: string, p: nat): (r: Scan)
    requires p <= |js|
    ensures r.At? ==> p <= r.pos < |js| && js[r.pos] == '"'
    ensures r.Bad? ==> r.error != NoMem
    decreases |js| - p
  {
    if Ends(js, p) then Bad(Part)
    else if js[p] == '"' then At(p)
    else if js[p] == '\\' && p + 1 < |js| then
      if IsSimpleEscape(js[p + 1]) then StringEnd(js, p + 2)
      else if js[p + 1] != 'u' then Bad(Inval)
      else match HexRun(js, p + 2, 4)
           case None => Bad(Inval)
           case Some(q) => StringEnd(js, q)
    else StringEnd(js, p + 1)
  }

  method ScanString(js: string, start: nat) returns (r: Scan)
    requires start < |js|
    ensures r == StringEnd(js, start + 1)
  {
    var pos := start + 1;
    while pos < |js| && js[pos] != '\0'
      invariant pos <= |js|
      invariant StringEnd(js, pos) == StringEnd(js, start + 1)
      decreases |js| - pos
    {
      if js[pos] == '"' {
        return At(pos);
      }
      if js[pos] == '\\' && pos + 1 < |js| {
        if IsSimpleEscape(js[pos + 1]) {
          pos := pos + 2;
        } else if js[pos + 1] == 'u' {
          var digits := ScanHex(js, pos + 2);
          if digits.None? {
            return Bad(Inval);
          }
          pos := digits.value;
        } else {
          return Bad(Inval);
        }
      } else {
        pos := pos + 1;
      }
    }
    return Bad(Part);
  }

  /** The digits after a \u. */
  method ScanHex(js: string, start: nat) returns (r: Option<nat>)
    requires start <= |js|
    ensures r == HexRun(js, start, 4)
  {
    var pos, i := start, 0;
    while i < 4 && pos < |js| && js[pos] != '\0'
      invariant i <= 4 && start <= pos <= |js|
      invariant HexRun(js, pos, 4 - i) == HexRun(js, start, 4)
    {
      if DigitVal(js[pos]) < 0 {
        return None;
      }
      pos, i := pos + 1, i + 1;
    }
    return Some(pos);
  }

  // ---- jsmn_parse_primitive -------------------------------------------------------------------

  predicate IsDelimiter(c: char) {
    c == ':' || IsBlank(c) || c == ',' || c == ']' || c == '}'
  }

  predicate IsPrintable(c: char) {
    32 <= c as int < 127
  }

  /** The end of the primitive whose characters start at `p`. */
  function PrimitiveEnd(js: string, p: nat): (r: Scan)
    requires p <= |js|
    ensures r.At? ==> p <= r.pos <= |js|
    ensures r.Bad? ==> r.error != NoMem
    ensures r.At? && !Ends(js, p) && !IsDelimiter(js[p]) ==> p < r.pos
    decreases |js| - p
  {
    if Ends(js, p) || IsDelimiter(js[p]) then At(p)
    else if !IsPrintable(js[p]) then Bad(Inval)
    else PrimitiveEnd(js, p + 1)
  }

  method ScanPrimitive(js: string, start: nat) returns (r: Scan)
    requires start <= |js|
    ensures r == PrimitiveEnd(js, start)
  {
    var pos := start;
    while pos < |js| && js[pos] != '\0'
      invariant pos <= |js|
      invariant PrimitiveEnd(js, pos) == PrimitiveEnd(js, start)
      decreases |js| - pos
    {
      if IsDelimiter(js[pos]) {
        return At(pos);
      }
      if !IsPrintable(js[pos]) {
        return Bad(Inval);
      }
      pos := pos + 1;
    }
    return At(pos);
  }

  // ---- jsmn_parse ---------------------------------------------------------------------------------

  /** Position, allocated tokens, and the token that gets the next child (-1 for none). */
  datatype State = State(pos: nat, toks: seq<Tok>, super: int)

  datatype StepResult = Next(s: State) | Stop(error: Error)

  predicate Sane(js: string, s: State) {
    s.pos <= |js| && -1 <= s.super < |s.toks|
  }

  /** One more child for the superior token. */
  function Bump(toks: seq<Tok>, super: int): (r: seq<Tok>)
    requires -1 <= super < |toks|
    ensures |r| == |toks|
  {
    if super == -1 then toks else toks[super := toks[super].(size := toks[super].size + 1)]
  }

  /** The last of the first `n` tokens still open, -1 if none is. */
  function LastOpen(toks: seq<Tok>, n: nat): (r: int)
    requires n <= |toks|
    ensures -1 <= r < n
    ensures r >= 0 ==> IsOpen(toks[r])
    ensures forall j :: r < j < n ==> !IsOpen(toks[j])
  {
    if n == 0 then -1 else if IsOpen(toks[n - 1]) then n - 1 else LastOpen(toks, n - 1)
  }

  predicate IsOpenContainer(t: Tok) {
    IsContainer(t.kind) && IsOpen(t)
  }

  function LastOpenContainer(toks: seq<Tok>, n: nat): (r: int)
    requires n <= |toks|
    ensures -1 <= r < n
    ensures r >= 0 ==> IsOpenContainer(toks[r])
    ensures forall j :: r < j < n ==> !IsOpenContainer(toks[j])
  {
    if n == 0 then -1 else if IsOpenContainer(toks[n - 1]) then n - 1 else LastOpenContainer(toks, n - 1)
  }

  function OpenBracket(s: State, kind: Kind, cap: nat): StepResult
    requires -1 <= s.super < |s.toks|
  {
    if |s.toks| >= cap then Stop(NoMem)
    else Next(State(s.pos + 1, Bump(s.toks, s.super) + [Tok(kind, s.pos, -1, 0)], |s.toks|))
  }

  /** The innermost open token is closed, and the next open one outside it becomes superior. */
  function CloseBracket(s: State, kind: Kind): StepResult {
    var i := LastOpen(s.toks, |s.toks|);
    if i == -1 || s.toks[i].kind != kind then Stop(Inval)
    else
      var toks := s.toks[i := s.toks[i].(end := s.pos + 1)];
      Next(State(s.pos + 1, toks, LastOpen(toks, i + 1)))
  }

  function Separator(s: State): State
    requires -1 <= s.super < |s.toks|
  {
    if s.super == -1 || IsContainer(s.toks[s.super].kind) then s.(pos := s.pos + 1)
    else
      var i := LastOpenContainer(s.toks, |s.toks|);
      State(s.pos + 1, s.toks, if i == -1 then s.super else i)
  }

  function Leaf(s: State, kind: Kind, start: nat, end: nat, next: nat, cap: nat): StepResult
    requires -1 <= s.super < |s.toks|
  {
    if |s.toks| >= cap then Stop(NoMem)
    else Next(State(next, Bump(s.toks + [Tok(kind, start, end, 0)], s.super), s.super))
  }

  /** One round of the main loop, its closing pos++ included. */
  function Step(js: string, s: State, cap: nat): (r: StepResult)
    requires Sane(js, s) && !Ends(js, s.pos)
    ensures r.Next? ==> Sane(js, r.s) && s.pos < r.s.pos
  {
    var c := js[s.pos];
    if c == '{' then OpenBracket(s, Object, cap)
    else if c == '[' then OpenBracket(s, Array, cap)
    else if c == '}' then CloseBracket(s, Object)
    else if c == ']' then CloseBracket(s, Array)
    else if c == '"' then
      match StringEnd(js, s.pos + 1)
      case Bad(error) => Stop(error)
      case At(q) => Leaf(s, String, s.pos + 1, q, q + 1, cap)
    else if IsBlank(c) then Next(s.(pos := s.pos + 1))
    else if c == ':' then Next(State(s.pos + 1, s.toks, |s.toks| - 1))
    else if c == ',' then Next(Separator(s))
    else
      match PrimitiveEnd(js, s.pos)
      case Bad(error) => Stop(error)
      case At(q) => Leaf(s, Primitive, s.pos, q, q, cap)
  }

  datatype Parsed = Tokens(toks: seq<Tok>) | Failed(error: Error)

  /** The parse from a state on, with room for `cap` tokens. */
  function Parse(js: string, s: State, cap: nat): Parsed
    requires Sane(js, s)
    decreases |js| - s.pos
  {
    if Ends(js, s.pos) then
      if LastOpen(s.toks, |s.toks|) >= 0 then Failed(Part) else Tokens(s.toks)
    else
      match Step(js, s, cap)
      case Stop(error) => Failed(error)
      case Next(s') => Parse(js, s', cap)
  }

  const START := State(0, [], -1)

  datatype Counted = Count(n: nat) | Uncounted(error: Error)

  function OneMore(c: Counted): Counted {
    match c
    case Count(n) => Count(n + 1)
    case Uncounted(_) => c
  }

  /** The pass without a token array, from `p` on: it scans strings and primitives but matches no brackets. */
  function CountFrom(js: string, p: nat): Counted
    requires p <= |js|
    decreases |js| - p
  {
    if Ends(js, p) then Count(0)
    else
      var c := js[p];
      if c == '{' || c == '[' then OneMore(CountFrom(js, p + 1))
      else if c == '}' || c == ']' || IsBlank(c) || c == ':' || c == ',' then CountFrom(js, p + 1)
      else if c == '"' then
        match StringEnd(js, p + 1)
        case Bad(error) => Uncounted(error)
        case At(q) => OneMore(CountFrom(js, q + 1))
      else
        match PrimitiveEnd(js, p)
        case Bad(error) => Uncounted(error)
        case At(q) => OneMore(CountFrom(js, q))
  }

  /** jsmn_parse with a null token array. */
  method CountTokens(js: string) returns (r: Counted)
    ensures r == CountFrom(js, 0)
  {
    var pos, count := 0, 0;
    while pos < |js| && js[pos] != '\0'
      invariant pos <= |js|
      invariant Plus(count, CountFrom(js, pos)) == CountFrom(js, 0)
      decreases |js| - pos
    {
      var c := js[pos];
      if c == '{' || c == '[' {
        count := count + 1;
        pos := pos + 1;
      } else if c == '"' {
        var end := ScanString(js, pos);
        if end.Bad? {
          return Uncounted(end.error);
        }
        count := count + 1;
        pos := end.pos + 1;
      } else if c == '}' || c == ']' || IsBlank(c) || c == ':' || c == ',' {
        pos := pos + 1;
      } else {
        var end := ScanPrimitive(js, pos);
        if end.Bad? {
          return Uncounted(end.error);
        }
        count := count + 1;
        pos := end.pos;
      }
    }
    return Count(count);
  }

  function Plus(n: nat, c: Counted): Counted {
    match c
    case Count(m) => Count(n + m)
    case Uncounted(_) => c
  }

  /** jsmn_parser with its token array. */
  class Parser {
    const js: string
    const tokens: array<Tok>
    var pos: nat
    var toknext: nat
    var toksuper: int

    ghost predicate Valid()
      reads this
    {
      pos <= |js| && toknext <= tokens.Length && -1 <= toksuper < toknext
    }

    ghost function View(): (s: State)
      reads this, tokens
      requires Valid()
      ensures Sane(js, s) && |s.toks| == toknext
    {
      State(pos, tokens[..toknext], toksuper)
    }

    /** jsmn_init over a fresh array. */
    constructor (js: string, cap: nat)
      ensures this.js == js && fresh(tokens) && tokens.Length == cap
      ensures Valid() && View() == START
    {
      this.js := js;
      tokens := new Tok[cap](_ => Tok(Primitive, -1, -1, 0));
      pos, toknext, toksuper := 0, 0, -1;
    }

    method AddChild()
      requires Valid()
      modifies tokens
      ensures Valid() && View() == old(View()).(toks := Bump(old(View()).toks, toksuper))
    {
      if toksuper != -1 {
        tokens[toksuper] := tokens[toksuper].(size := tokens[toksuper].size + 1);
      }
    }

    /** jsmn_alloc_token and jsmn_fill_token. */
    method AddToken(t: Tok)
      requires Valid() && toknext < tokens.Length
      modifies this`toknext, tokens
      ensures Valid() && View() == old(View()).(toks := old(View()).toks + [t])
    {
      tokens[toknext] := t;
      toknext := toknext + 1;
    }

    method TakeOpen(kind: Kind) returns (error: Option<Error>)
      requires Valid() && !Ends(js, pos)
      modifies this, tokens
      ensures Valid() && Result(error, View(), OpenBracket(old(View()), kind, tokens.Length))
    {
      if toknext >= tokens.Length {
        return Some(NoMem);
      }
      ghost var s := View();
      AddChild();
      AddToken(Tok(kind, pos, -1, 0));
      assert tokens[..toknext] == Bump(s.toks, s.super) + [Tok(kind, s.pos, -1, 0)];
      pos, toksuper := pos + 1, toknext - 1;
      return None;
    }

    /** Backwards to the last open token among the first `n`. */
    method FindOpen(n: nat) returns (i: int)
      requires Valid() && n <= toknext
      ensures i == LastOpen(View().toks, n)
    {
      i := n - 1;
      while i >= 0
        invariant -1 <= i < n
        invariant LastOpen(View().toks, n) == LastOpen(View().toks, i + 1)
      {
        if IsOpen(tokens[i]) {
          return;
        }
        i := i - 1;
      }
    }

    method FindOpenContainer() returns (i: int)
      requires Valid()
      ensures i == LastOpenContainer(View().toks, toknext)
    {
      i := toknext - 1;
      while i >= 0
        invariant -1 <= i < toknext
        invariant LastOpenContainer(View().toks, toknext) == LastOpenContainer(View().toks, i + 1)
      {
        if IsOpenContainer(tokens[i]) {
          return;
        }
        i := i - 1;
      }
    }

    method TakeClose(kind: Kind) returns (error: Option<Error>)
      requires Valid() && !Ends(js, pos)
      modifies this, tokens
      ensures Valid() && Result(error, View(), CloseBracket(old(View()), kind))
    {
      var i := FindOpen(toknext);
      if i == -1 || tokens[i].kind != kind {
        return Some(Inval);
      }
      tokens[i] := tokens[i].(end := pos + 1);
      toksuper := FindOpen(i + 1);
      pos := pos + 1;
      return None;
    }

    method TakeLeaf(kind: Kind, start: nat, end: nat, next: nat) returns (error: Option<Error>)
      requires Valid() && next <= |js|
      modifies this, tokens
      ensures Valid() && Result(error, View(), Leaf(old(View()), kind, start, end, next, tokens.Length))
    {
      if toknext >= tokens.Length {
        return Some(NoMem);
      }
      AddToken(Tok(kind, start, end, 0));
      AddChild();
      pos := next;
      return None;
    }

    method TakeSeparator()
      requires Valid() && !Ends(js, pos)
      modifies this
      ensures Valid() && View() == Separator(old(View()))
    {
      if toksuper != -1 && !IsContainer(tokens[toksuper].kind) {
        var i := FindOpenContainer();
        if i != -1 {
          toksuper := i;
        }
      }
      pos := pos + 1;
    }

    /** One round of the loop. */
    method Advance() returns (error: Option<Error>)
      requires Valid() && !Ends(js, pos)
      modifies this, tokens
      ensures Valid() && Result(error, View(), Step(js, old(View()), tokens.Length))
    {
      error := None;
      var c := js[pos];
      if c == '{' {
        error := TakeOpen(Object);
      } else if c == '[' {
        error := TakeOpen(Array);
      } else if c == '}' {
        error := TakeClose(Object);
      } else if c == ']' {
        error := TakeClose(Array);
      } else if c == '"' {
        var end := ScanString(js, pos);
        if end.Bad? {
          return Some(end.error);
        }
        error := TakeLeaf(String, pos + 1, end.pos, end.pos + 1);
      } else if IsBlank(c) {
        pos := pos + 1;
      } else if c == ':' {
        pos, toksuper := pos + 1, toknext - 1;
      } else if c == ',' {
        TakeSeparator();
      } else {
        var end := ScanPrimitive(js, pos);
        if end.Bad? {
          return Some(end.error);
        }
        error := TakeLeaf(Primitive, pos, end.pos, end.pos);
      }
    }

    /** jsmn_parse. */
    method Run() returns (r: Parsed)
      requires Valid()
      modifies this, tokens
      ensures r == Parse(js, old(View()), tokens.Length)
    {
      while pos < |js| && js[pos] != '\0'
        invariant Valid()
        invariant Parse(js, View(), tokens.Length) == Parse(js, old(View()), tokens.Length)
        decreases |js| - pos
      {
        var error := Advance();
        if error.Some? {
          return Failed(error.value);
        }
      }
      var i := FindOpen(toknext);
      return if i >= 0 then Failed(Part) else Tokens(tokens[..toknext]);
    }
  }

  /** An error is reported, or the parser is where the step leads. */
  ghost predicate Result(error: Option<Error>, s: State, r: StepResult) {
    match r
    case Next(s') => error.None? && s == s'
    case Stop(e) => error == Some(e)
  }
}
