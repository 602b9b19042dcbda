/** Facts about integer multiplication and division that the solver does not find unaided. */
module Arithmetic {

  lemma MulMonotone(a: int, b: int, m: int)
    requires a <= b && m >= 0
    ensures a * m <= b * m
  {
    assert b * m - a * m == (b - a) * m;
  }

  /** A quotient is pinned down by the product it comes from. */
  lemma QuotientUnique(p: int, m: int, q: int)
    requires m > 0 && q * m <= p < q * m + m
    ensures p / m == q
  {
    var d := p / m;
    assert p == d * m + p % m;
    if d > q {
      MulMonotone(q + 1, d, m);
      assert false;
    }
    if d < q {
      MulMonotone(d + 1, q, m);
      assert false;
    }
  }

  /** `p / m` for `0 <= p <= m * bound` lies in [0, bound]. */
  lemma QuotientBounded(p: int, m: int, bound: int)
    requires m > 0 && bound >= 0 && 0 <= p <= m * bound
    ensures 0 <= p / m <= bound
  {
    var q := p / m;
    assert p == q * m + p % m;
    if q > bound {
      MulMonotone(bound + 1, q, m);
      assert false;
    }
    if q < 0 {
      MulMonotone(q, -1, m);
      assert false;
    }
  }
}
