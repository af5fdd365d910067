/** The generation counter. */
module Generations {

  datatype Generation = Generation(number: int) {

    /** A new counter one further on; the receiver is a value and is not changed. */
    function Next(): (g: Generation)
      ensures g.number > number && g.number - 1 == number
    {
      Generation(number + 1)
    }
  }

  /** `g` advanced `k` times. */
  function Advance(g: Generation, k: nat): Generation
  {
    if k == 0 then g else Advance(g, k - 1).Next()
  }

  /** Advancing k times adds exactly k: never skipping, never going back. */
  lemma {:induction false} AdvanceAddsK(g: Generation, k: nat)
    ensures Advance(g, k).number == g.number + k
  {
    if k > 0 {
      AdvanceAddsK(g, k - 1);
    }
  }

  /** Starting from generation 0, k steps reach generation k. */
  lemma AdvanceFromZero(k: nat)
    ensures Advance(Generation(0), k).number == k
  {
    AdvanceAddsK(Generation(0), k);
  }

  /** The counter is strictly increasing along a run. */
  lemma {:induction false} AdvanceStrictlyIncreasing(g: Generation, i: nat, j: nat)
    requires i < j
    ensures Advance(g, i).number < Advance(g, j).number
  {
    AdvanceAddsK(g, i);
    AdvanceAddsK(g, j);
  }
}
