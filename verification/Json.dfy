/** JSON values, and the pre-order token array the jsmn tokenizer leaves for them. */
module Json {

  /** A string's `text` is what stands between the quotes, escapes included; a primitive's is its literal text. */
  datatype Value =
    | Str(text: string)
    | Prim(text: string)
    | Arr(elems: seq<Value>)
    | Obj(members: seq<Member>)

  datatype Member = Member(key: string, value: Value)

  datatype Kind = Object | Array | String | Primitive

  /** One token as the loader sees it: its type, the text it delimits, and its child count. */
  datatype Token = Token(kind: Kind, text: string, size: nat)

  /** In pre-order: a container is followed by its children, and a key counts its value as its one child. The text a
      container delimits is left empty here. */
  function Flatten(v: Value): seq<Token>
    decreases v, 1
  {
    match v
    case Str(text) => [Token(String, text, 0)]
    case Prim(text) => [Token(Primitive, text, 0)]
    case Arr(elems) => [Token(Array, "", |elems|)] + FlattenElems(elems)
    case Obj(members) => [Token(Object, "", |members|)] + FlattenMembers(members)
  }

  function FlattenElems(vs: seq<Value>): seq<Token>
    decreases vs, 0
  {
    if vs == [] then [] else Flatten(vs[0]) + FlattenElems(vs[1..])
  }

  function FlattenMember(m: Member): seq<Token>
    decreases m, 2
  {
    [KeyToken(m.key)] + Flatten(m.value)
  }

  function FlattenMembers(ms: seq<Member>): seq<Token>
    decreases ms, 0
  {
    if ms == [] then [] else FlattenMember(ms[0]) + FlattenMembers(ms[1..])
  }

  function KeyToken(key: string): Token {
    Token(String, key, 1)
  }

  predicate Scalar(v: Value) {
    v.Str? || v.Prim?
  }

  // ---- tokens standing at a position ---------------------------------------------------

  function Size(v: Value): nat
    decreases v, 1
  {
    match v
    case Str(_) => 1
    case Prim(_) => 1
    case Arr(elems) => 1 + SizeElems(elems)
    case Obj(members) => 1 + SizeMembers(members)
  }

  function SizeElems(vs: seq<Value>): nat
    decreases vs, 0
  {
    if vs == [] then 0 else Size(vs[0]) + SizeElems(vs[1..])
  }

  function SizeMembers(ms: seq<Member>): nat
    decreases ms, 0
  {
    if ms == [] then 0 else 1 + Size(ms[0].value) + SizeMembers(ms[1..])
  }

  /** The tokens of `v` stand in the array from `t` on, whatever text a container's token delimits. */
  predicate Stands(tok: seq<Token>, t: nat, v: Value)
    decreases v, 1
  {
    && t < |tok|
    && match v
       case Str(text) => tok[t] == Token(String, text, 0)
       case Prim(text) => tok[t] == Token(Primitive, text, 0)
       case Arr(elems) => tok[t].kind == Array && tok[t].size == |elems| && ElemsStand(tok, t + 1, elems)
       case Obj(members) => tok[t].kind == Object && tok[t].size == |members| && MembersStand(tok, t + 1, members)
  }

  predicate ElemsStand(tok: seq<Token>, t: nat, vs: seq<Value>)
    decreases vs, 0
  {
    vs == [] || (Stands(tok, t, vs[0]) && ElemsStand(tok, t + Size(vs[0]), vs[1..]))
  }

  predicate MembersStand(tok: seq<Token>, t: nat, ms: seq<Member>)
    decreases ms, 0
  {
    ms == [] ||
    (t < |tok| && tok[t] == KeyToken(ms[0].key) && Stands(tok, t + 1, ms[0].value)
     && MembersStand(tok, t + 1 + Size(ms[0].value), ms[1..]))
  }

  /** The array holds the tokens of `v` and nothing else. */
  predicate Tokenized(tok: seq<Token>, v: Value) {
    |tok| == Size(v) && Stands(tok, 0, v)
  }

  lemma {:induction false} FlattenStands(pre: seq<Token>, v: Value, post: seq<Token>)
    ensures |Flatten(v)| == Size(v)
    ensures Stands(pre + Flatten(v) + post, |pre|, v)
    decreases v, 1
  {
    var tok := pre + Flatten(v) + post;
    match v
    case Str(_) =>
    case Prim(_) =>
    case Arr(elems) =>
      var head := Token(Array, "", |elems|);
      FlattenElemsStand(pre + [head], elems, post);
      assert tok == pre + [head] + FlattenElems(elems) + post;
    case Obj(members) =>
      var head := Token(Object, "", |members|);
      FlattenMembersStand(pre + [head], members, post);
      assert tok == pre + [head] + FlattenMembers(members) + post;
  }

  lemma {:induction false} FlattenElemsStand(pre: seq<Token>, vs: seq<Value>, post: seq<Token>)
    ensures |FlattenElems(vs)| == SizeElems(vs)
    ensures ElemsStand(pre + FlattenElems(vs) + post, |pre|, vs)
    decreases vs, 0
  {
    if vs != [] {
      var first, rest := Flatten(vs[0]), FlattenElems(vs[1..]);
      FlattenStands(pre, vs[0], rest + post);
      FlattenElemsStand(pre + first, vs[1..], post);
      assert pre + (first + rest) + post == pre + first + (rest + post);
      assert pre + (first + rest) + post == pre + first + rest + post;
    }
  }

  lemma {:induction false} FlattenMembersStand(pre: seq<Token>, ms: seq<Member>, post: seq<Token>)
    ensures |FlattenMembers(ms)| == SizeMembers(ms)
    ensures MembersStand(pre + FlattenMembers(ms) + post, |pre|, ms)
    decreases ms, 0
  {
    if ms != [] {
      var key, value, rest := [KeyToken(ms[0].key)], Flatten(ms[0].value), FlattenMembers(ms[1..]);
      FlattenStands(pre + key, ms[0].value, rest + post);
      FlattenMembersStand(pre + key + value, ms[1..], post);
      Regroup(pre, key, value, rest, post);
    }
  }

  /** Two tokens that only a container's text can tell apart. */
  predicate Alike(a: Token, b: Token) {
    a.kind == b.kind && a.size == b.size && (a.kind == Object || a.kind == Array || a.text == b.text)
  }

  predicate AllAlike(a: seq<Token>, b: seq<Token>) {
    |a| == |b| && forall i :: 0 <= i < |a| ==> Alike(a[i], b[i])
  }

  lemma {:induction false} StandsAlike(a: seq<Token>, b: seq<Token>, t: nat, v: Value)
    requires AllAlike(a, b) && Stands(a, t, v)
    ensures Stands(b, t, v)
    decreases v, 1
  {
    assert Alike(a[t], b[t]);
    match v
    case Str(_) =>
    case Prim(_) =>
    case Arr(elems) => ElemsAlike(a, b, t + 1, elems);
    case Obj(members) => MembersAlike(a, b, t + 1, members);
  }

  lemma {:induction false} ElemsAlike(a: seq<Token>, b: seq<Token>, t: nat, vs: seq<Value>)
    requires AllAlike(a, b) && ElemsStand(a, t, vs)
    ensures ElemsStand(b, t, vs)
    decreases vs, 0
  {
    if vs != [] {
      StandsAlike(a, b, t, vs[0]);
      ElemsAlike(a, b, t + Size(vs[0]), vs[1..]);
    }
  }

  lemma {:induction false} MembersAlike(a: seq<Token>, b: seq<Token>, t: nat, ms: seq<Member>)
    requires AllAlike(a, b) && MembersStand(a, t, ms)
    ensures MembersStand(b, t, ms)
    decreases ms, 0
  {
    if ms != [] {
      assert Alike(a[t], b[t]);
      StandsAlike(a, b, t + 1, ms[0].value);
      MembersAlike(a, b, t + 1 + Size(ms[0].value), ms[1..]);
    }
  }

  /** The tokens at a place are those of one value at most. */
  lemma {:induction false} StandsOnce(tok: seq<Token>, t: nat, v: Value, w: Value)
    requires Stands(tok, t, v) && Stands(tok, t, w)
    ensures v == w
    decreases v, 1
  {
    match v
    case Str(_) =>
    case Prim(_) =>
    case Arr(elems) => ElemsStandOnce(tok, t + 1, elems, w.elems);
    case Obj(members) => MembersStandOnce(tok, t + 1, members, w.members);
  }

  lemma {:induction false} ElemsStandOnce(tok: seq<Token>, t: nat, vs: seq<Value>, ws: seq<Value>)
    requires |vs| == |ws| && ElemsStand(tok, t, vs) && ElemsStand(tok, t, ws)
    ensures vs == ws
    decreases vs, 0
  {
    if vs != [] {
      StandsOnce(tok, t, vs[0], ws[0]);
      ElemsStandOnce(tok, t + Size(vs[0]), vs[1..], ws[1..]);
      assert vs == [vs[0]] + vs[1..] && ws == [ws[0]] + ws[1..];
    }
  }

  lemma {:induction false} MembersStandOnce(tok: seq<Token>, t: nat, ms: seq<Member>, ns: seq<Member>)
    requires |ms| == |ns| && MembersStand(tok, t, ms) && MembersStand(tok, t, ns)
    ensures ms == ns
    decreases ms, 0
  {
    if ms != [] {
      StandsOnce(tok, t + 1, ms[0].value, ns[0].value);
      MembersStandOnce(tok, t + 1 + Size(ms[0].value), ms[1..], ns[1..]);
      assert ms == [ms[0]] + ms[1..] && ns == [ns[0]] + ns[1..];
    }
  }

  lemma Regroup<T>(pre: seq<T>, a: seq<T>, b: seq<T>, c: seq<T>, post: seq<T>)
    ensures pre + (a + b + c) + post == pre + a + b + (c + post)
    ensures pre + (a + b + c) + post == pre + a + b + c + post
  {
  }
}
