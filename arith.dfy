/** Euclidean division facts the solver does not find on its own for symbolic divisors. */
module Arith {
  /** Quotient and remainder are the only ones: x = q * d + r with 0 <= r < d. */
  lemma DivModUnique(x: int, d: int, q: int, r: int)
    requires d > 0 && 0 <= r < d && x == q * d + r
    ensures x / d == q && x % d == r
  {
    var q' := x / d;
    assert (q' - q) * d == q' * d - q * d;
    SmallMultiple(q' - q, d);
  }

  /** The only multiple of d strictly between -d and d is 0. */
  lemma SmallMultiple(k: int, d: int)
    requires d > 0 && -d < k * d < d
    ensures k == 0
  {
  }
}
