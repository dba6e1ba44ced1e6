/** Arithmetic on reals that needs a hint. */
module Reals {

  lemma Weighted(k: real, x: real, y: real)
    requires k >= 0.0 && x <= y
    ensures k * x <= k * y
  {
  }

  /** A quotient is at most what its product with the divisor reaches. */
  lemma QuotientAtMost(a: real, r: real, b: real)
    requires r > 0.0 && a <= r * b
    ensures a / r <= b
  {
    var q := a / r;
    assert r * q == a;
    if q > b { Strict(r, b, q); }
  }

  lemma QuotientBelow(a: real, r: real, b: real)
    requires r > 0.0 && a < r * b
    ensures a / r < b
  {
    var q := a / r;
    assert r * q == a;
    if q >= b { Weighted(r, b, q); }
  }

  lemma Strict(k: real, x: real, y: real)
    requires k > 0.0 && x < y
    ensures k * x < k * y
  {
  }
}
