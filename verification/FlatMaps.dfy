/** Mapping items to what they contribute, and how that behaves under reordering. */
module FlatMaps {

  /** Everything the items contribute, in order. */
  function FlatMap<T, U>(s: seq<T>, f: T -> seq<U>): seq<U> {
    if s == [] then [] else FlatMap(s[..|s| - 1], f) + f(s[|s| - 1])
  }

  lemma {:induction false} FlatMapAppend<T, U>(a: seq<T>, b: seq<T>, f: T -> seq<U>)
    ensures FlatMap(a + b, f) == FlatMap(a, f) + FlatMap(b, f)
  {
    if b == [] {
      assert a + b == a;
    } else {
      assert (a + b)[..|a + b| - 1] == a + b[..|b| - 1];
      FlatMapAppend(a, b[..|b| - 1], f);
    }
  }

  lemma FlatMapSingle<T, U>(x: T, f: T -> seq<U>)
    ensures FlatMap([x], f) == f(x)
  {
    assert [x][..0] == [];
  }

  lemma Remove<T, U>(s: seq<T>, i: nat, f: T -> seq<U>) returns (rest: seq<T>)
    requires i < |s|
    ensures |rest| == |s| - 1 && multiset(s) == multiset(rest) + multiset{s[i]}
    ensures multiset(FlatMap(s, f)) == multiset(FlatMap(rest, f)) + multiset(f(s[i]))
  {
    var a, x, b := s[..i], s[i], s[i + 1..];
    rest := a + b;
    assert s == a + ([x] + b);
    FlatMapAppend(a, [x] + b, f);
    FlatMapAppend([x], b, f);
    FlatMapAppend(a, b, f);
    FlatMapSingle(x, f);
  }

  /** Reordering the items reorders what they contribute, and no more. */
  lemma {:induction false} FlatMapPermutes<T, U>(a: seq<T>, b: seq<T>, f: T -> seq<U>)
    requires multiset(a) == multiset(b)
    ensures multiset(FlatMap(a, f)) == multiset(FlatMap(b, f))
    decreases |a|
  {
    if a == [] {
      assert |multiset(b)| == 0;
    } else {
      var x := a[0];
      assert x in multiset(b);
      var i :| 0 <= i < |b| && b[i] == x;
      var a' := Remove(a, 0, f);
      var b' := Remove(b, i, f);
      assert multiset(a') == multiset(a) - multiset{x} == multiset(b');
      FlatMapPermutes(a', b', f);
    }
  }

  lemma {:induction false} FlatMapMembers<T, U>(s: seq<T>, f: T -> seq<U>, y: U)
    ensures y in FlatMap(s, f) <==> exists x :: x in s && y in f(x)
  {
    if s != [] {
      var front, last := s[..|s| - 1], s[|s| - 1];
      assert s == front + [last];
      FlatMapMembers(front, f, y);
    }
  }
}
