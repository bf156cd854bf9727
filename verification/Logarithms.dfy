/** The binary logarithm that bounds the searches. */
module Logarithms {
  function FloorLog2(n: nat): nat {
    if n < 2 then 0 else 1 + FloorLog2(n / 2)
  }

  lemma {:induction false} FloorLog2Monotone(m: nat, n: nat)
    requires m <= n
    ensures FloorLog2(m) <= FloorLog2(n)
    decreases n
  {
    if m >= 2 {
      FloorLog2Monotone(m / 2, n / 2);
    }
  }

  function TwoTo(k: nat): nat {
    if k == 0 then 1 else 2 * TwoTo(k - 1)
  }

  /** It is the greatest power of two that is not more. */
  lemma {:induction false} FloorLog2Is(n: nat)
    requires n > 0
    ensures TwoTo(FloorLog2(n)) <= n < TwoTo(FloorLog2(n) + 1)
    decreases n
  {
    if n >= 2 {
      FloorLog2Is(n / 2);
    }
  }
}
