/** Small facts of integer arithmetic that the solver does not find on its own. */
module Arith {

  lemma MulSucc(q: int, d: int)
    ensures (q + 1) * d == q * d + d
  {
  }

  lemma MulPositive(a: int, b: int)
    requires a > 0 && b > 0
    ensures a * b > 0
  {
  }

  lemma MulAtLeast(k: int, d: int)
    requires k >= 1 && d > 0
    ensures k * d >= d
  {
  }

  lemma MulSub(a: int, b: int, d: int)
    ensures (a - b) * d == a * d - b * d
  {
  }

  /** Euclidean remainder is determined by any quotient-remainder decomposition. */
  lemma ModOfDecomposition(a: int, d: int, q: int, r: int)
    requires d > 0 && 0 <= r < d && a == q * d + r
    ensures a % d == r
  {
    var q2 := a / d;
    if q > q2 {
      MulSub(q, q2, d);
      MulAtLeast(q - q2, d);
    } else if q < q2 {
      MulSub(q2, q, d);
      MulAtLeast(q2 - q, d);
    }
  }
}
