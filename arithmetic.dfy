/**
  Facts about integer multiplication that the window and backoff proofs
  share; the solver does not find them unaided.
 */
module Arithmetic {

  /** Two different multiples of m are at least m apart. */
  lemma MulGap(m: int, lo: int, hi: int)
    requires m > 0 && lo < hi
    ensures m * hi - m * lo >= m
  {
    MulAtLeast(m, hi - lo);
    assert m * (hi - lo) == m * hi - m * lo;
  }

  /** A positive multiple of m is at least m. */
  lemma {:induction false} MulAtLeast(m: int, k: int)
    requires m > 0 && k >= 1
    ensures m * k >= m
    decreases k
  {
    if k > 1 {
      MulAtLeast(m, k - 1);
      assert m * k == m * (k - 1) + m;
    }
  }
}
