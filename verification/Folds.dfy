/** Folding a sequence from the left. */
module Folds {

  function Fold<M, T>(step: (M, T) -> M, m: M, s: seq<T>): M {
    if s == [] then m else step(Fold(step, m, s[..|s| - 1]), s[|s| - 1])
  }

  lemma FoldSnoc<M, T>(step: (M, T) -> M, m: M, s: seq<T>, x: T)
    ensures Fold(step, m, s + [x]) == step(Fold(step, m, s), x)
  {
    assert (s + [x])[..|s|] == s;
  }

  lemma {:induction false} FoldCons<M, T>(step: (M, T) -> M, m: M, x: T, s: seq<T>)
    ensures Fold(step, m, [x] + s) == Fold(step, step(m, x), s)
  {
    if s == [] {
      FoldSnoc(step, m, [], x);
      assert [x] + s == [] + [x];
    } else {
      var front, last := s[..|s| - 1], s[|s| - 1];
      FoldCons(step, m, x, front);
      FoldSnoc(step, m, [x] + front, last);
      assert [x] + front + [last] == [x] + s;
    }
  }
}
