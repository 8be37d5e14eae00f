/** Runs of a state machine: its steps one after another. */
module Runs {

  function Fold<S, E>(s: S, steps: seq<E>, next: (S, E) -> S): S {
    if steps == [] then s else next(Fold(s, steps[..|steps| - 1], next), steps[|steps| - 1])
  }

  lemma {:induction false} FoldConcat<S, E>(s: S, first: seq<E>, second: seq<E>, next: (S, E) -> S)
    ensures Fold(s, first + second, next) == Fold(Fold(s, first, next), second, next)
  {
    if second == [] {
      assert first + second == first;
    } else {
      var n := |second| - 1;
      FoldConcat(s, first, second[..n], next);
      assert (first + second)[..|first| + n] == first + second[..n];
    }
  }
}
