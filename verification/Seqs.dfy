/** Sequence combinators shared by the whole project. */
module Seqs {

  /** `f` of every element, concatenated in order. */
  function FlatMap<S, T>(f: S -> seq<T>, s: seq<S>): seq<T> {
    if s == [] then [] else f(s[0]) + FlatMap(f, s[1..])
  }

  lemma {:induction false} FlatMapAppend<S, T>(f: S -> seq<T>, a: seq<S>, b: seq<S>)
    ensures FlatMap(f, a + b) == FlatMap(f, a) + FlatMap(f, b)
  {
    if a == [] {
      assert a + b == b;
    } else {
      calc {
        FlatMap(f, a + b);
        { assert (a + b)[0] == a[0] && (a + b)[1..] == a[1..] + b; }
        f(a[0]) + FlatMap(f, a[1..] + b);
        { FlatMapAppend(f, a[1..], b); }
        f(a[0]) + (FlatMap(f, a[1..]) + FlatMap(f, b));
        (f(a[0]) + FlatMap(f, a[1..])) + FlatMap(f, b);
        FlatMap(f, a) + FlatMap(f, b);
      }
    }
  }

  lemma FlatMapSnoc<S, T>(f: S -> seq<T>, s: seq<S>, i: nat)
    requires i < |s|
    ensures FlatMap(f, s[..i + 1]) == FlatMap(f, s[..i]) + f(s[i])
  {
    assert s[..i + 1] == s[..i] + [s[i]];
    FlatMapAppend(f, s[..i], [s[i]]);
    assert [s[i]][1..] == [];
    assert f(s[i]) + [] == f(s[i]);
  }

  lemma {:induction false} FlatMapSame<S, U, T>(f: S -> seq<T>, a: seq<S>, g: U -> seq<T>, b: seq<U>)
    requires |a| == |b|
    requires forall i :: 0 <= i < |a| ==> f(a[i]) == g(b[i])
    ensures FlatMap(f, a) == FlatMap(g, b)
  {
    if a != [] {
      FlatMapSame(f, a[1..], g, b[1..]);
    }
  }

  /** `s` with the element at `i` taken out. */
  function Without<T>(s: seq<T>, i: nat): seq<T>
    requires i < |s|
  {
    s[..i] + s[i + 1..]
  }

  lemma WithoutParts<T>(s: seq<T>, i: nat)
    requires i < |s|
    ensures Without(s, i)[..i] == s[..i] && Without(s, i)[i..] == s[i + 1..]
  {
  }

  /** The elements satisfying `p`, in order. */
  function Filter<T>(p: T -> bool, s: seq<T>): seq<T> {
    if s == [] then []
    else if p(s[0]) then [s[0]] + Filter(p, s[1..])
    else Filter(p, s[1..])
  }

  lemma {:induction false} FilterAppend<T>(p: T -> bool, a: seq<T>, b: seq<T>)
    ensures Filter(p, a + b) == Filter(p, a) + Filter(p, b)
  {
    if a == [] {
      assert a + b == b;
    } else {
      FilterAppend(p, a[1..], b);
      assert (a + b)[0] == a[0] && (a + b)[1..] == a[1..] + b;
    }
  }

  lemma FilterOne<T>(p: T -> bool, x: T)
    ensures Filter(p, [x]) == if p(x) then [x] else []
  {
    assert [x][1..] == [] && Filter(p, [x][1..]) == [];
  }

  /** Filtering with one element, and with it taken out. */
  lemma FilterAround<T>(p: T -> bool, a: seq<T>, x: T, b: seq<T>)
    ensures Filter(p, a + [x] + b) == Filter(p, a) + (if p(x) then [x] else []) + Filter(p, b)
    ensures Filter(p, a + b) == Filter(p, a) + Filter(p, b)
  {
    FilterAppend(p, a + [x], b);
    FilterAppend(p, a, [x]);
    FilterOne(p, x);
    FilterAppend(p, a, b);
  }

  lemma AroundAt<T>(s: seq<T>, i: nat)
    requires i < |s|
    ensures s == s[..i] + [s[i]] + s[i + 1..]
  {
  }

  /** The first `i` elements kept as they are, the others filtered. */
  function FilterFrom<T>(p: T -> bool, s: seq<T>, i: nat): seq<T>
    requires i <= |s|
  {
    s[..i] + Filter(p, s[i..])
  }

  lemma FilterFromEnds<T>(p: T -> bool, s: seq<T>)
    ensures FilterFrom(p, s, 0) == Filter(p, s)
    ensures FilterFrom(p, s, |s|) == s
  {
    assert s[0..] == s && s[..|s|] == s;
  }

  /** One step of filtering in place: keep the element at `i`, or take it out. */
  lemma FilterFromStep<T>(p: T -> bool, s: seq<T>, i: nat)
    requires i < |s|
    ensures FilterFrom(p, s, i) == if p(s[i]) then FilterFrom(p, s, i + 1) else FilterFrom(p, Without(s, i), i)
  {
    assert s[i..][0] == s[i] && s[i..][1..] == s[i + 1..];
    WithoutParts(s, i);
    assert s[..i] + ([s[i]] + Filter(p, s[i + 1..])) == s[..i + 1] + Filter(p, s[i + 1..]);
  }

  lemma {:induction false} FilterCommutes<T>(p: T -> bool, q: T -> bool, s: seq<T>)
    ensures Filter(p, Filter(q, s)) == Filter(q, Filter(p, s))
  {
    if s != [] {
      FilterCommutes(p, q, s[1..]);
    }
  }

  lemma {:induction false} FilterAll<T>(p: T -> bool, s: seq<T>)
    requires forall x :: x in s ==> p(x)
    ensures Filter(p, s) == s
  {
    if s != [] {
      FilterAll(p, s[1..]);
    }
  }

  lemma {:induction false} FilterNone<T>(p: T -> bool, s: seq<T>)
    requires forall x :: x in s ==> !p(x)
    ensures Filter(p, s) == []
  {
    if s != [] {
      FilterNone(p, s[1..]);
    }
  }

  lemma {:induction false} FilterMember<T>(p: T -> bool, s: seq<T>, x: T)
    ensures x in Filter(p, s) <==> x in s && p(x)
  {
    if s != [] {
      FilterMember(p, s[1..], x);
      assert s == [s[0]] + s[1..];
    }
  }
}
