/** A step repeated: runs whose every step depends only on its number and on what it is taken from. */
module Iteration {

  /** The step taken n times, told each time how often it has been taken before. */
  function Iterate<T>(step: (T, nat) -> T, t: T, n: nat): T {
    if n == 0 then t else step(Iterate(step, t, n - 1), n - 1)
  }

  predicate Follows<T(==)>(step: (T, nat) -> T, trace: nat -> T, n: nat) {
    step(trace(n), n) == trace(n + 1)
  }

  lemma {:induction false} IterateFollows<T>(step: (T, nat) -> T, trace: nat -> T, n: nat)
    requires forall i: nat :: i < n ==> Follows(step, trace, i)
    ensures Iterate(step, trace(0), n) == trace(n)
  {
    if n > 0 {
      IterateFollows(step, trace, n - 1);
      assert Follows(step, trace, n - 1);
    }
  }
}
