/** JSON text: what it means for characters to spell a value, and the text json.dumps writes. */
module JsonText {
  import opened Json
  import opened Jsmn

  // ---- spelling a value ---------------------------------------------------------------------

  datatype Lexeme = Open(kind: Kind) | Close(kind: Kind) | Quoted(text: string) | Bare(text: string) | Comma | Colon

  function Lexemes(v: Value): seq<Lexeme>
    decreases v, 1
  {
    match v
    case Str(text) => [Quoted(text)]
    case Prim(text) => [Bare(text)]
    case Arr(elems) => [Open(Array)] + (ElemLexemes(elems) + [Close(Array)])
    case Obj(members) => [Open(Object)] + (MemberLexemes(members) + [Close(Object)])
  }

  function ElemLexemes(vs: seq<Value>): seq<Lexeme>
    decreases vs, 0
  {
    if vs == [] then [] else Lexemes(vs[0]) + (Separators(|vs|) + ElemLexemes(vs[1..]))
  }

  function MemberLexemes(ms: seq<Member>): seq<Lexeme>
    decreases ms, 0
  {
    if ms == [] then []
    else [Quoted(ms[0].key), Colon] + (Lexemes(ms[0].value) + (Separators(|ms|) + MemberLexemes(ms[1..])))
  }

  /** A comma, unless this is the last of `n`. */
  function Separators(n: nat): seq<Lexeme> {
    if n > 1 then [Comma] else []
  }

  function Spelling(l: Lexeme): (s: string)
    ensures !l.Bare? ==> s != "" && !IsBlank(s[0]) && s[0] != '\0'
  {
    match l
    case Open(kind) => if kind == Object then "{" else "["
    case Close(kind) => if kind == Object then "}" else "]"
    case Quoted(text) => ['"'] + text + ['"']
    case Bare(text) => text
    case Comma => ","
    case Colon => ":"
  }

  /** What may stand between two quotes: the scan ends at the quote put behind it. */
  predicate RawString(text: string) {
    StringEnd(text + ['"'], 0) == At(|text|)
  }

  predicate BareChar(c: char) {
    IsPrintable(c) && !IsDelimiter(c) && c != '"' && c != '{' && c != '['
  }

  /** What may stand as a primitive. */
  predicate RawPrimitive(text: string) {
    text != "" && forall i :: 0 <= i < |text| ==> BareChar(text[i])
  }

  predicate Legal(l: Lexeme) {
    match l
    case Open(kind) => IsContainer(kind)
    case Close(kind) => IsContainer(kind)
    case Quoted(text) => RawString(text)
    case Bare(text) => RawPrimitive(text)
    case _ => true
  }

  /** All keys and texts of a value can be written. */
  predicate LegalValue(v: Value)
    decreases v, 1
  {
    match v
    case Str(text) => RawString(text)
    case Prim(text) => RawPrimitive(text)
    case Arr(elems) => LegalElems(elems)
    case Obj(members) => LegalMembers(members)
  }

  predicate LegalElems(vs: seq<Value>)
    decreases vs, 0
  {
    forall i :: 0 <= i < |vs| ==> LegalValue(vs[i])
  }

  predicate LegalMembers(ms: seq<Member>)
    decreases ms, 0
  {
    forall i :: 0 <= i < |ms| ==> RawString(ms[i].key) && LegalValue(ms[i].value)
  }

  /** The first position from `p` on that holds no blank. */
  function SkipBlanks(js: string, p: nat): (q: nat)
    requires p <= |js|
    ensures p <= q <= |js|
    ensures forall i :: p <= i < q ==> IsBlank(js[i])
    ensures q < |js| ==> !IsBlank(js[q])
    decreases |js| - p
  {
    if p == |js| || !IsBlank(js[p]) then p else SkipBlanks(js, p + 1)
  }

  /** `s` stands from `p` to `end`. */
  predicate Has(js: string, p: nat, s: string, end: nat) {
    p + |s| == end <= |js| && js[p..end] == s
  }

  predicate Delimited(js: string, p: nat) {
    p <= |js| && (p == |js| || IsDelimiter(js[p]))
  }

  /** The lexeme stands from `p` to `end`; a primitive ends at a delimiter. */
  predicate LexemeAt(js: string, p: nat, l: Lexeme, end: nat) {
    Has(js, p, Spelling(l), end) && (l.Bare? ==> Delimited(js, end))
  }

  /** From `q` on, where no blank stands, the text consists of these lexemes with any blanks between and after them. */
  predicate SpellsAt(js: string, q: nat, ls: seq<Lexeme>)
    requires q <= |js|
    decreases |ls|
  {
    if ls == [] then q == |js|
    else
      var end := q + |Spelling(ls[0])|;
      LexemeAt(js, q, ls[0], end) && SpellsAt(js, SkipBlanks(js, end), ls[1..])
  }

  predicate Spells(js: string, p: nat, ls: seq<Lexeme>)
    requires p <= |js|
  {
    SpellsAt(js, SkipBlanks(js, p), ls)
  }

  /** A text spells a value, in any layout. */
  predicate SpellsValue(js: string, v: Value) {
    LegalValue(v) && Spells(js, 0, Lexemes(v))
  }

  lemma Split(js: string, p: nat, a: string, b: string, end: nat) returns (mid: nat)
    requires Has(js, p, a + b, end)
    ensures Has(js, p, a, mid) && Has(js, mid, b, end)
  {
    mid := p + |a|;
    assert js[p..mid] == (a + b)[..|a|] && js[mid..end] == (a + b)[|a|..];
  }

  lemma SkipBlanksOver(js: string, p: nat, q: nat)
    requires p <= q <= |js| && forall i :: p <= i < q ==> IsBlank(js[i])
    ensures SkipBlanks(js, p) == SkipBlanks(js, q)
    decreases q - p
  {
    if p < q {
      SkipBlanksOver(js, p + 1, q);
    }
  }

  lemma BlanksBefore(js: string, p: nat, q: nat, ls: seq<Lexeme>)
    requires p <= q <= |js| && (forall i :: p <= i < q ==> IsBlank(js[i])) && Spells(js, q, ls)
    ensures Spells(js, p, ls)
  {
    SkipBlanksOver(js, p, q);
  }

  lemma LegalStart(l: Lexeme)
    requires Legal(l)
    ensures Spelling(l) != "" && !IsBlank(Spelling(l)[0])
  {
    if l.Bare? {
      assert BareChar(l.text[0]);
    }
  }

  lemma LexemeBefore(js: string, p: nat, l: Lexeme, end: nat, rest: seq<Lexeme>)
    requires Legal(l) && Has(js, p, Spelling(l), end) && Spells(js, end, rest)
    requires l.Bare? ==> Delimited(js, end)
    ensures Spells(js, p, [l] + rest)
  {
    assert SkipBlanks(js, p) == p by {
      LegalStart(l);
      CharAt(js, p, Spelling(l), end, 0);
    }
    var ls := [l] + rest;
    assert ls[0] == l && ls[1..] == rest;
    FirstLexeme(js, p, ls, end, SkipBlanks(js, end));
  }

  lemma FirstLexeme(js: string, p: nat, ls: seq<Lexeme>, end: nat, next: nat)
    requires p <= |js| && ls != [] && LexemeAt(js, p, ls[0], end) && next == SkipBlanks(js, end)
    requires SpellsAt(js, next, ls[1..])
    ensures SpellsAt(js, p, ls)
  {
    assert end == p + |Spelling(ls[0])|;
  }

  lemma CharAt(js: string, p: nat, s: string, end: nat, i: nat)
    requires Has(js, p, s, end) && i < |s|
    ensures js[p + i] == s[i]
  {
    assert js[p..end][i] == s[i];
  }

  // ---- json.dumps(..., indent=2) --------------------------------------------------------------

  function NewLine(level: nat): string {
    ['\n'] + seq(2 * level, _ => ' ')
  }

  /** What follows the first of `n` items: nothing, or a comma and the others on new lines. */
  function Tail(n: nat, level: nat, more: string): string {
    if n == 1 then "" else "," + (NewLine(level) + more)
  }

  function Dumps(v: Value, level: nat): string
    decreases v, 1
  {
    match v
    case Str(text) => Spelling(Quoted(text))
    case Prim(text) => text
    case Arr(elems) =>
      if elems == [] then "[]" else "[" + (NewLine(level + 1) + (DumpElems(elems, level + 1) + (NewLine(level) + "]")))
    case Obj(members) =>
      if members == [] then "{}" else "{" + (NewLine(level + 1) + (DumpMembers(members, level + 1) + (NewLine(level) + "}")))
  }

  function DumpElems(vs: seq<Value>, level: nat): string
    requires vs != []
    decreases vs, 0
  {
    Dumps(vs[0], level) + Tail(|vs|, level, if |vs| == 1 then "" else DumpElems(vs[1..], level))
  }

  function DumpMembers(ms: seq<Member>, level: nat): string
    requires ms != []
    decreases ms, 0
  {
    Spelling(Quoted(ms[0].key))
    + (":" + " " + (Dumps(ms[0].value, level) + Tail(|ms|, level, if |ms| == 1 then "" else DumpMembers(ms[1..], level))))
  }

  lemma NewLineBlank(js: string, p: nat, level: nat, end: nat)
    requires Has(js, p, NewLine(level), end)
    ensures p < end && forall i :: p <= i < end ==> IsBlank(js[i])
  {
    var s := NewLine(level);
    forall i | p <= i < end ensures IsBlank(js[i]) {
      CharAt(js, p, s, end, i - p);
    }
  }

  lemma NewLineBefore(js: string, p: nat, level: nat, end: nat, ls: seq<Lexeme>)
    requires Has(js, p, NewLine(level), end) && Spells(js, end, ls)
    ensures Spells(js, p, ls) && Delimited(js, p)
  {
    NewLineBlank(js, p, level, end);
    assert IsBlank(js[p]);
    BlanksBefore(js, p, end, ls);
  }

  /** What json.dumps writes for a value spells it. */
  lemma {:induction false} DumpsSpell(js: string, p: nat, v: Value, level: nat, end: nat, rest: seq<Lexeme>)
    requires LegalValue(v) && Has(js, p, Dumps(v, level), end) && Delimited(js, end) && Spells(js, end, rest)
    ensures Spells(js, p, Lexemes(v) + rest)
    decreases v, 1
  {
    match v
    case Str(text) => LexemeBefore(js, p, Quoted(text), end, rest);
    case Prim(text) => LexemeBefore(js, p, Bare(text), end, rest);
    case Arr(_) => ArraySpells(js, p, v, level, end, rest);
    case Obj(_) => ObjectSpells(js, p, v, level, end, rest);
  }

  lemma {:induction false} ArraySpells(js: string, p: nat, v: Value, level: nat, end: nat, rest: seq<Lexeme>)
    requires v.Arr? && LegalElems(v.elems) && Has(js, p, Dumps(v, level), end) && Spells(js, end, rest)
    ensures Spells(js, p, [Open(Array)] + (ElemLexemes(v.elems) + [Close(Array)]) + rest)
    decreases v, 0
  {
    if v.elems == [] {
      EmptySpells(js, p, Array, end, rest);
    } else {
      var text := DumpElems(v.elems, level + 1);
      var inner, stop := BracketParts(js, p, Array, level, text, end, rest);
      ElemsSpell(js, inner, v.elems, level + 1, stop, [Close(Array)] + rest);
      BracketSpells(js, p, Array, level, inner, ElemLexemes(v.elems), rest);
    }
  }

  lemma {:induction false} ObjectSpells(js: string, p: nat, v: Value, level: nat, end: nat, rest: seq<Lexeme>)
    requires v.Obj? && LegalMembers(v.members) && Has(js, p, Dumps(v, level), end) && Spells(js, end, rest)
    ensures Spells(js, p, [Open(Object)] + (MemberLexemes(v.members) + [Close(Object)]) + rest)
    decreases v, 0
  {
    if v.members == [] {
      EmptySpells(js, p, Object, end, rest);
    } else {
      var text := DumpMembers(v.members, level + 1);
      var inner, stop := BracketParts(js, p, Object, level, text, end, rest);
      MembersSpell(js, inner, v.members, level + 1, stop, [Close(Object)] + rest);
      BracketSpells(js, p, Object, level, inner, MemberLexemes(v.members), rest);
    }
  }

  lemma EmptySpells(js: string, p: nat, kind: Kind, end: nat, rest: seq<Lexeme>)
    requires IsContainer(kind) && Has(js, p, Spelling(Open(kind)) + Spelling(Close(kind)), end) && Spells(js, end, rest)
    ensures Spells(js, p, [Open(kind)] + ([] + [Close(kind)]) + rest)
  {
    var mid := Split(js, p, Spelling(Open(kind)), Spelling(Close(kind)), end);
    LexemeBefore(js, mid, Close(kind), end, rest);
    LexemeBefore(js, p, Open(kind), mid, [Close(kind)] + rest);
    assert [Open(kind)] + ([] + [Close(kind)]) + rest == [Open(kind)] + ([Close(kind)] + rest);
  }

  /** The text between the brackets of a nonempty container, and what follows it. */
  lemma BracketParts(js: string, p: nat, kind: Kind, level: nat, text: string, end: nat, rest: seq<Lexeme>)
    returns (inner: nat, stop: nat)
    requires IsContainer(kind)
    requires Has(js, p, Spelling(Open(kind)) + (NewLine(level + 1) + (text + (NewLine(level) + Spelling(Close(kind))))), end)
    requires Spells(js, end, rest)
    ensures p < inner && Has(js, p, Spelling(Open(kind)), p + 1) && Has(js, p + 1, NewLine(level + 1), inner)
    ensures Has(js, inner, text, stop)
    ensures Spells(js, stop, [Close(kind)] + rest) && Delimited(js, stop)
  {
    var close := NewLine(level) + Spelling(Close(kind));
    var open := Split(js, p, Spelling(Open(kind)), NewLine(level + 1) + (text + close), end);
    inner := Split(js, open, NewLine(level + 1), text + close, end);
    stop := Split(js, inner, text, close, end);
    var last := Split(js, stop, NewLine(level), Spelling(Close(kind)), end);
    LexemeBefore(js, last, Close(kind), end, rest);
    NewLineBefore(js, stop, level, last, [Close(kind)] + rest);
  }

  lemma BracketSpells(js: string, p: nat, kind: Kind, level: nat, inner: nat, ls: seq<Lexeme>, rest: seq<Lexeme>)
    requires IsContainer(kind) && Has(js, p, Spelling(Open(kind)), p + 1) && Has(js, p + 1, NewLine(level + 1), inner)
    requires Spells(js, inner, ls + ([Close(kind)] + rest))
    ensures Spells(js, p, [Open(kind)] + (ls + [Close(kind)]) + rest)
  {
    var more := ls + ([Close(kind)] + rest);
    NewLineBefore(js, p + 1, level + 1, inner, more);
    LexemeBefore(js, p, Open(kind), p + 1, more);
    Around(Open(kind), ls, Close(kind), rest);
  }

  lemma Around<T>(a: T, b: seq<T>, c: T, rest: seq<T>)
    ensures [a] + (b + [c]) + rest == [a] + (b + ([c] + rest))
  {
  }

  /** After an item: nothing, or a comma and the next item on a new line. */
  lemma TailSpells(js: string, p: nat, n: nat, level: nat, more: string, end: nat, next: nat, ls: seq<Lexeme>)
    requires n > 1 && Has(js, p, ",", p + 1) && Has(js, p + 1, NewLine(level), next) && Spells(js, next, ls)
    ensures Spells(js, p, Separators(n) + ls) && Delimited(js, p)
  {
    NewLineBefore(js, p + 1, level, next, ls);
    LexemeBefore(js, p, Comma, p + 1, ls);
    CharAt(js, p, ",", p + 1, 0);
  }

  lemma TailParts(js: string, p: nat, n: nat, level: nat, more: string, end: nat) returns (next: nat)
    requires n > 1 && Has(js, p, Tail(n, level, more), end)
    ensures Has(js, p, ",", p + 1) && Has(js, p + 1, NewLine(level), next) && Has(js, next, more, end)
  {
    var mid := Split(js, p, ",", NewLine(level) + more, end);
    next := Split(js, mid, NewLine(level), more, end);
  }

  /** The last item ends where the container's items end. */
  lemma LastSpells(js: string, p: nat, level: nat, end: nat, none: seq<Lexeme>, rest: seq<Lexeme>)
    requires Has(js, p, Tail(1, level, ""), end) && Delimited(js, end) && Spells(js, end, rest) && none == []
    ensures Spells(js, p, Separators(1) + (none + rest)) && Delimited(js, p)
  {
    assert Separators(1) + (none + rest) == rest;
  }

  lemma {:induction false} ElemsSpell(js: string, p: nat, vs: seq<Value>, level: nat, end: nat, rest: seq<Lexeme>)
    requires vs != [] && LegalElems(vs) && Has(js, p, DumpElems(vs, level), end) && Delimited(js, end) && Spells(js, end, rest)
    ensures Spells(js, p, ElemLexemes(vs) + rest)
    decreases vs, 1
  {
    var more, own := if |vs| == 1 then "" else DumpElems(vs[1..], level), ElemLexemes(vs[1..]);
    var mid := Split(js, p, Dumps(vs[0], level), Tail(|vs|, level, more), end);
    MoreElemsSpell(js, mid, vs, level, end, own, rest);
    DumpsSpell(js, p, vs[0], level, mid, Separators(|vs|) + (own + rest));
    Reassociate(Lexemes(vs[0]), Separators(|vs|), own, rest);
  }

  lemma {:induction false} MoreElemsSpell(js: string, mid: nat, vs: seq<Value>, level: nat, end: nat, own: seq<Lexeme>,
                                          rest: seq<Lexeme>)
    requires vs != [] && LegalElems(vs) && own == ElemLexemes(vs[1..])
    requires Has(js, mid, Tail(|vs|, level, if |vs| == 1 then "" else DumpElems(vs[1..], level)), end)
    requires Delimited(js, end) && Spells(js, end, rest)
    ensures Delimited(js, mid) && Spells(js, mid, Separators(|vs|) + (own + rest))
    decreases vs, 0
  {
    if |vs| == 1 {
      LastSpells(js, mid, level, end, own, rest);
    } else {
      var more := DumpElems(vs[1..], level);
      var next := TailParts(js, mid, |vs|, level, more, end);
      ElemsSpell(js, next, vs[1..], level, end, rest);
      TailSpells(js, mid, |vs|, level, more, end, next, own + rest);
    }
  }

  lemma Reassociate<T>(a: seq<T>, b: seq<T>, c: seq<T>, d: seq<T>)
    ensures a + (b + c) + d == a + (b + (c + d))
  {
  }

  lemma ColonSpells(js: string, p: nat, end: nat, ls: seq<Lexeme>)
    requires Has(js, p, ":" + " ", end) && Spells(js, end, ls)
    ensures Spells(js, p, [Colon] + ls)
  {
    var mid := Split(js, p, ":", " ", end);
    CharAt(js, mid, " ", end, 0);
    BlanksBefore(js, mid, end, ls);
    LexemeBefore(js, p, Colon, mid, ls);
  }

  lemma MemberParts(js: string, p: nat, ms: seq<Member>, level: nat, end: nat) returns (colon: nat, start: nat, mid: nat)
    requires ms != [] && Has(js, p, DumpMembers(ms, level), end)
    ensures Has(js, p, Spelling(Quoted(ms[0].key)), colon) && Has(js, colon, ":" + " ", start)
    ensures Has(js, start, Dumps(ms[0].value, level), mid)
    ensures Has(js, mid, Tail(|ms|, level, if |ms| == 1 then "" else DumpMembers(ms[1..], level)), end)
  {
    var text := Dumps(ms[0].value, level);
    var tail := Tail(|ms|, level, if |ms| == 1 then "" else DumpMembers(ms[1..], level));
    colon := Split(js, p, Spelling(Quoted(ms[0].key)), ":" + " " + (text + tail), end);
    start := Split(js, colon, ":" + " ", text + tail, end);
    mid := Split(js, start, text, tail, end);
  }

  lemma {:induction false} MembersSpell(js: string, p: nat, ms: seq<Member>, level: nat, end: nat, rest: seq<Lexeme>)
    requires ms != [] && LegalMembers(ms) && Has(js, p, DumpMembers(ms, level), end)
    requires Delimited(js, end) && Spells(js, end, rest)
    ensures Spells(js, p, MemberLexemes(ms) + rest)
    decreases ms, 1
  {
    var colon, start, mid := MemberParts(js, p, ms, level, end);
    var own := MemberLexemes(ms[1..]);
    MoreMembersSpell(js, mid, ms, level, end, own, rest);
    var after := Separators(|ms|) + (own + rest);
    DumpsSpell(js, start, ms[0].value, level, mid, after);
    MemberSpells(js, p, ms[0].key, colon, start, Lexemes(ms[0].value) + after);
    MemberShape(Quoted(ms[0].key), Lexemes(ms[0].value), Separators(|ms|), own, rest);
  }

  lemma {:induction false} MoreMembersSpell(js: string, mid: nat, ms: seq<Member>, level: nat, end: nat, own: seq<Lexeme>,
                                            rest: seq<Lexeme>)
    requires ms != [] && LegalMembers(ms) && own == MemberLexemes(ms[1..])
    requires Has(js, mid, Tail(|ms|, level, if |ms| == 1 then "" else DumpMembers(ms[1..], level)), end)
    requires Delimited(js, end) && Spells(js, end, rest)
    ensures Delimited(js, mid) && Spells(js, mid, Separators(|ms|) + (own + rest))
    decreases ms, 0
  {
    if |ms| == 1 {
      LastSpells(js, mid, level, end, own, rest);
    } else {
      var more := DumpMembers(ms[1..], level);
      var next := TailParts(js, mid, |ms|, level, more, end);
      MembersSpell(js, next, ms[1..], level, end, rest);
      TailSpells(js, mid, |ms|, level, more, end, next, own + rest);
    }
  }

  lemma MemberSpells(js: string, p: nat, key: string, colon: nat, start: nat, ls: seq<Lexeme>)
    requires RawString(key) && Has(js, p, Spelling(Quoted(key)), colon) && Has(js, colon, ":" + " ", start)
    requires Spells(js, start, ls)
    ensures Spells(js, p, [Quoted(key)] + ([Colon] + ls))
  {
    ColonSpells(js, colon, start, ls);
    LexemeBefore(js, p, Quoted(key), colon, [Colon] + ls);
  }

  lemma MemberShape(key: Lexeme, a: seq<Lexeme>, b: seq<Lexeme>, c: seq<Lexeme>, d: seq<Lexeme>)
    ensures [key, Colon] + (a + (b + c)) + d == [key] + ([Colon] + (a + (b + (c + d))))
  {
  }

  lemma DumpedTextSpells(v: Value)
    requires LegalValue(v)
    ensures SpellsValue(Dumps(v, 0), v)
  {
    var js := Dumps(v, 0);
    assert js[0..|js|] == js;
    DumpsSpell(js, 0, v, 0, |js|, []);
    assert Lexemes(v) + [] == Lexemes(v);
  }

  lemma NewLines()
    ensures NewLine(0) == "\n" && NewLine(1) == "\n  " && NewLine(2) == "\n    "
  {
  }

  lemma DumpedItems()
    ensures DumpElems([Prim("1"), Prim("2")], 2) == "1,\n    2"
  {
    NewLines();
    assert [Prim("1"), Prim("2")][1..] == [Prim("2")];
    assert DumpElems([Prim("2")], 2) == "2" + "";
  }

  /** The layout of a list inside something else: two blanks of indentation per level, an item per line. */
  lemma DumpedList()
    ensures Dumps(Arr([Prim("1"), Prim("2")]), 1) == "[\n    1,\n    2\n  ]"
  {
    NewLines();
    DumpedItems();
  }

  /** And of an object: a blank behind the colon. */
  lemma DumpedObject()
    ensures Dumps(Obj([Member("a", Prim("1"))]), 0) == "{\n  \"a\": 1\n}"
  {
    NewLines();
    assert DumpMembers([Member("a", Prim("1"))], 1) == "\"a\": 1" + "";
  }
}
