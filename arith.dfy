/** Integer facts the tile-order proofs need, kept apart so that each is small. */
module Arith {

  /** A positive multiple of d is at least d. */
  lemma {:induction false} MultipleAtLeast(k: int, d: int)
    requires k >= 1 && d > 0
    ensures k * d >= d
  {
    if k > 1 {
      MultipleAtLeast(k - 1, d);
      assert k * d == (k - 1) * d + d;
    }
  }

  /** Euclidean division is determined by quotient and remainder. */
  lemma DivModUnique(x: int, d: int, q: int, m: int)
    requires d > 0 && 0 <= m < d && x == q * d + m
    ensures x / d == q && x % d == m
  {
    var q', m' := x / d, x % d;
    assert x == q' * d + m';
    if q > q' {
      assert q * d == (q - q') * d + q' * d;
      MultipleAtLeast(q - q', d);
      assert false;
    } else if q < q' {
      assert q' * d == (q' - q) * d + q * d;
      MultipleAtLeast(q' - q, d);
      assert false;
    }
  }
}
