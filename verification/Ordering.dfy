/** Sorting by a string key, as JavaScript's stable `sort` does with a three-way string comparison. */
module Ordering {

  /** Lexicographic order by character code. */
  predicate Less(a: string, b: string) {
    b != "" && (a == "" || a[0] < b[0] || (a[0] == b[0] && Less(a[1..], b[1..])))
  }

  /** Alphabetical: a proper prefix comes first, and otherwise the first difference decides. */
  lemma {:induction false} LessAtTheFirstDifference(common: string, a: string, c: char, b: string, d: char)
    requires c < d
    ensures Less(common, common + [c] + a)
    ensures Less(common + [c] + a, common + [d] + b)
  {
    if common != "" {
      LessAtTheFirstDifference(common[1..], a, c, b, d);
      assert (common + [c] + a)[1..] == common[1..] + [c] + a;
      assert (common + [d] + b)[1..] == common[1..] + [d] + b;
    }
  }

  lemma {:induction false} LessIsTotal(a: string, b: string)
    ensures Less(a, b) || a == b || Less(b, a)
    ensures !(Less(a, b) && Less(b, a)) && !Less(a, a)
  {
    if a != "" && b != "" && a[0] == b[0] {
      LessIsTotal(a[1..], b[1..]);
      assert a == [a[0]] + a[1..] && b == [b[0]] + b[1..];
    } else if a != "" {
      LessIsIrreflexive(a);
    }
  }

  lemma LessIsIrreflexive(a: string)
    ensures !Less(a, a)
  {
  }

  lemma {:induction false} LessIsTransitive(a: string, b: string, c: string)
    requires Less(a, b) && Less(b, c)
    ensures Less(a, c)
  {
    if a != "" && a[0] == b[0] == c[0] {
      LessIsTransitive(a[1..], b[1..], c[1..]);
    }
  }

  /** Keys strictly ascend, so no two are equal. */
  ghost predicate Ascending<T(!new)>(s: seq<T>, key: T -> string) {
    forall i, j | 0 <= i < j < |s| :: Less(key(s[i]), key(s[j]))
  }

  ghost predicate DistinctKeys<T(!new)>(s: seq<T>, key: T -> string) {
    forall i, j | 0 <= i < j < |s| :: key(s[i]) != key(s[j])
  }

  function Insert<T>(x: T, s: seq<T>, key: T -> string): (r: seq<T>)
    ensures multiset(r) == multiset{x} + multiset(s)
  {
    if s == [] || !Less(key(s[0]), key(x)) then [x] + s
    else
      assert s == [s[0]] + s[1..];
      [s[0]] + Insert(x, s[1..], key)
  }

  /** The stable sort: equal keys keep their order. */
  function SortBy<T>(s: seq<T>, key: T -> string): (r: seq<T>)
    ensures multiset(r) == multiset(s)
  {
    if s == [] then []
    else
      assert s == [s[0]] + s[1..];
      Insert(s[0], SortBy(s[1..], key), key)
  }

  function Sort(s: seq<string>): (r: seq<string>)
    ensures multiset(r) == multiset(s)
  {
    SortBy(s, Identity)
  }

  function Identity(x: string): string { x }

  lemma {:induction false} InsertAscends<T(!new)>(x: T, s: seq<T>, key: T -> string)
    requires Ascending(s, key) && forall i | 0 <= i < |s| :: key(s[i]) != key(x)
    ensures Ascending(Insert(x, s, key), key)
  {
    if s == [] {
    } else if Less(key(s[0]), key(x)) {
      var r := Insert(x, s[1..], key);
      InsertAscends(x, s[1..], key);
      forall j | 0 <= j < |r|
        ensures Less(key(s[0]), key(r[j]))
      {
        assert r[j] in multiset(r);
        assert r[j] == x || r[j] in s[1..];
      }
      AscendingCons(s[0], r, key);
    } else {
      LessIsTotal(key(s[0]), key(x));
      forall j | 0 <= j < |s|
        ensures Less(key(x), key(s[j]))
      {
        if j > 0 {
          LessIsTransitive(key(x), key(s[0]), key(s[j]));
        }
      }
      AscendingCons(x, s, key);
    }
  }

  lemma AscendingCons<T(!new)>(x: T, s: seq<T>, key: T -> string)
    requires Ascending(s, key) && forall j | 0 <= j < |s| :: Less(key(x), key(s[j]))
    ensures Ascending([x] + s, key)
  {
  }

  /** The elements with this key, in order. */
  ghost function WithKey<T(!new)>(s: seq<T>, key: T -> string, k: string): seq<T> {
    if s == [] then [] else Mine(s[0], key, k) + WithKey(s[1..], key, k)
  }

  ghost function Mine<T(!new)>(x: T, key: T -> string, k: string): seq<T> {
    if key(x) == k then [x] else []
  }

  lemma WithKeyCons<T(!new)>(x: T, s: seq<T>, key: T -> string, k: string)
    ensures WithKey([x] + s, key, k) == Mine(x, key, k) + WithKey(s, key, k)
  {
    assert ([x] + s)[1..] == s;
  }

  lemma {:induction false} InsertIsStable<T(!new)>(x: T, s: seq<T>, key: T -> string, k: string)
    ensures WithKey(Insert(x, s, key), key, k) == Mine(x, key, k) + WithKey(s, key, k)
  {
    if s == [] || !Less(key(s[0]), key(x)) {
      WithKeyCons(x, s, key, k);
    } else {
      InsertIsStable(x, s[1..], key, k);
      WithKeyCons(s[0], Insert(x, s[1..], key), key, k);
      LessIsTotal(key(s[0]), key(x));
      DifferentKeysCommute(x, s[0], WithKey(s[1..], key, k), key, k);
    }
  }

  lemma DifferentKeysCommute<T(!new)>(x: T, y: T, rest: seq<T>, key: T -> string, k: string)
    requires key(x) != key(y)
    ensures Mine(y, key, k) + (Mine(x, key, k) + rest) == Mine(x, key, k) + (Mine(y, key, k) + rest)
  {
  }

  /** Elements with equal keys keep their order. */
  lemma {:induction false} SortIsStable<T(!new)>(s: seq<T>, key: T -> string, k: string)
    ensures WithKey(SortBy(s, key), key, k) == WithKey(s, key, k)
  {
    if s != [] {
      SortIsStable(s[1..], key, k);
      InsertIsStable(s[0], SortBy(s[1..], key), key, k);
    }
  }

  lemma {:induction false} SortAscends<T(!new)>(s: seq<T>, key: T -> string)
    requires DistinctKeys(s, key)
    ensures Ascending(SortBy(s, key), key)
  {
    if s != [] {
      var sorted := SortBy(s[1..], key);
      SortAscends(s[1..], key);
      forall i | 0 <= i < |sorted|
        ensures key(sorted[i]) != key(s[0])
      {
        assert sorted[i] in multiset(sorted);
        assert sorted[i] in s[1..];
      }
      InsertAscends(s[0], sorted, key);
    }
  }

  /** No element's key is below that of one before it. */
  ghost predicate Ordered<T(!new)>(s: seq<T>, key: T -> string) {
    forall i, j | 0 <= i < j < |s| :: !Less(key(s[j]), key(s[i]))
  }

  lemma {:induction false} InsertOrders<T(!new)>(x: T, s: seq<T>, key: T -> string)
    requires Ordered(s, key)
    ensures Ordered(Insert(x, s, key), key)
  {
    if s == [] {
    } else if Less(key(s[0]), key(x)) {
      var r := Insert(x, s[1..], key);
      InsertOrders(x, s[1..], key);
      LessIsTotal(key(s[0]), key(x));
      forall j | 0 <= j < |r|
        ensures !Less(key(r[j]), key(s[0]))
      {
        assert r[j] in multiset(r);
        assert r[j] == x || r[j] in s[1..];
      }
      OrderedCons(s[0], r, key);
    } else {
      forall j | 0 <= j < |s|
        ensures !Less(key(s[j]), key(x))
      {
        if j > 0 {
          NotLessIsTransitive(key(x), key(s[0]), key(s[j]));
        }
      }
      OrderedCons(x, s, key);
    }
  }

  lemma OrderedCons<T(!new)>(x: T, s: seq<T>, key: T -> string)
    requires Ordered(s, key) && forall j | 0 <= j < |s| :: !Less(key(s[j]), key(x))
    ensures Ordered([x] + s, key)
  {
  }

  lemma NotLessIsTransitive(a: string, b: string, c: string)
    requires !Less(b, a) && !Less(c, b)
    ensures !Less(c, a)
  {
    LessIsTotal(a, b);
    LessIsTotal(b, c);
    LessIsTotal(a, c);
    if Less(a, b) && Less(b, c) {
      LessIsTransitive(a, b, c);
    }
  }

  /** The sort orders any input, repeated keys included. */
  lemma {:induction false} SortOrders<T(!new)>(s: seq<T>, key: T -> string)
    ensures Ordered(SortBy(s, key), key)
  {
    if s != [] {
      SortOrders(s[1..], key);
      InsertOrders(s[0], SortBy(s[1..], key), key);
    }
  }

  /** Two ascending sequences with the same elements are the same sequence. */
  lemma {:induction false} AscendingIsUnique<T(!new)>(a: seq<T>, b: seq<T>, key: T -> string)
    requires Ascending(a, key) && Ascending(b, key) && multiset(a) == multiset(b)
    ensures a == b
  {
    if a == [] {
      assert |multiset(b)| == 0;
    } else {
      HeadsAgree(a, b, key);
      TailsAgree(a, b);
      AscendingIsUnique(a[1..], b[1..], key);
      assert a == [a[0]] + a[1..] && b == [b[0]] + b[1..];
    }
  }

  lemma HeadsAgree<T(!new)>(a: seq<T>, b: seq<T>, key: T -> string)
    requires a != [] && Ascending(a, key) && Ascending(b, key) && multiset(a) == multiset(b)
    ensures b != [] && a[0] == b[0]
  {
    assert a[0] in multiset(b) && b != [];
    assert b[0] in multiset(a);
    HeadIsLeast(a, key, b[0]);
    HeadIsLeast(b, key, a[0]);
    LessIsTotal(key(a[0]), key(b[0]));
  }

  lemma TailsAgree<T>(a: seq<T>, b: seq<T>)
    requires a != [] && b != [] && a[0] == b[0] && multiset(a) == multiset(b)
    ensures multiset(a[1..]) == multiset(b[1..])
  {
    assert a == [a[0]] + a[1..] && b == [b[0]] + b[1..];
    assert multiset(a[1..]) == multiset(a) - multiset{a[0]};
    assert multiset(b[1..]) == multiset(b) - multiset{a[0]};
  }

  lemma HeadIsLeast<T(!new)>(s: seq<T>, key: T -> string, x: T)
    requires s != [] && Ascending(s, key) && x in s
    ensures x == s[0] || Less(key(s[0]), key(x))
  {
  }

  /** With distinct keys the sorted result does not depend on the order of the input. */
  lemma SortIsCanonical<T(!new)>(a: seq<T>, b: seq<T>, key: T -> string)
    requires DistinctKeys(a, key) && DistinctKeys(b, key) && multiset(a) == multiset(b)
    ensures SortBy(a, key) == SortBy(b, key) && Ascending(SortBy(a, key), key)
  {
    SortAscends(a, key);
    SortAscends(b, key);
    AscendingIsUnique(SortBy(a, key), SortBy(b, key), key);
  }

  /** Distinctness of keys survives reordering. */
  lemma DistinctKeysPermute<T(!new)>(a: seq<T>, b: seq<T>, key: T -> string)
    requires DistinctKeys(a, key) && multiset(a) == multiset(b)
    ensures DistinctKeys(b, key)
  {
    forall i, j | 0 <= i < j < |b|
      ensures key(b[i]) != key(b[j])
    {
      if key(b[i]) == key(b[j]) {
        TwoOccurrences(b, i, j);
        assert b[i] in multiset(a) && b[j] in multiset(a);
        AtMostOnce(a, key, b[i]);
      }
    }
  }

  lemma TwoOccurrences<T(!new)>(s: seq<T>, i: nat, j: nat)
    requires i < j < |s|
    ensures s[i] == s[j] ==> multiset(s)[s[i]] >= 2
  {
    assert s == s[..i] + [s[i]] + s[i + 1..j] + [s[j]] + s[j + 1..];
  }

  lemma {:induction false} AtMostOnce<T(!new)>(s: seq<T>, key: T -> string, x: T)
    requires DistinctKeys(s, key)
    ensures multiset(s)[x] <= 1
  {
    if s != [] {
      AtMostOnce(s[1..], key, x);
      assert s == [s[0]] + s[1..];
      if s[0] == x {
        assert x !in s[1..];
      }
    }
  }

  /** Two listings of the same elements, each element once, are reorderings of each other. */
  lemma SameElementsPermute<T(!new)>(a: seq<T>, b: seq<T>, key: T -> string)
    requires DistinctKeys(a, key) && DistinctKeys(b, key) && forall x :: x in a <==> x in b
    ensures multiset(a) == multiset(b)
  {
    forall x: T
      ensures multiset(a)[x] == multiset(b)[x]
    {
      AtMostOnce(a, key, x);
      AtMostOnce(b, key, x);
      assert x in a <==> x in multiset(a);
      assert x in b <==> x in multiset(b);
    }
  }
}
