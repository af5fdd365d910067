/** Repeating a step function: the state after any number of steps. */
module Iteration {

  /** `x` after `k` applications of `f`. */
  function Iterate<T>(f: T -> T, x: T, k: nat): T
  {
    if k == 0 then x else f(Iterate(f, x, k - 1))
  }

  /** A fixed point of `f` stays put for any number of steps. */
  lemma {:induction false} FixedPointForever<T>(f: T -> T, x: T, k: nat)
    requires f(x) == x
    ensures Iterate(f, x, k) == x
  {
    if k > 0 {
      FixedPointForever(f, x, k - 1);
    }
  }

  /** A point that two steps bring back recurs after every even number of steps. */
  lemma {:induction false} PeriodTwoForever<T>(f: T -> T, x: T, k: nat)
    requires f(f(x)) == x
    ensures Iterate(f, x, 2 * k) == x
  {
    if k > 0 {
      PeriodTwoForever(f, x, k - 1);
      var m := 2 * (k - 1);
      assert Iterate(f, x, m + 2) == f(Iterate(f, x, m + 1));
    }
  }

  /** A property that every step preserves holds after any number of steps. */
  lemma {:induction false} InvariantForever<T>(f: T -> T, inv: T -> bool, x: T, k: nat)
    requires inv(x)
    requires forall y :: inv(y) ==> inv(f(y))
    ensures inv(Iterate(f, x, k))
  {
    if k > 0 {
      InvariantForever(f, inv, x, k - 1);
    }
  }
}
