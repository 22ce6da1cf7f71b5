/** Products and division of integers, one fact at a time. */
module Arithmetic {
  lemma Monotone(k: int, x: int, y: int)
    requires k > 0 && x <= y
    ensures k * x <= k * y
  {
  }

  lemma NoSmallMultiple(k: int, d: int)
    requires k > 0 && -k < k * d < k
    ensures d == 0
  {
    if d > 0 { Monotone(k, 1, d); }
    if d < 0 { Monotone(k, d, -1); }
  }

  /** Quotient and remainder are what their defining equation says. */
  lemma DivisionIs(x: int, k: int, q: int, r: int)
    requires k > 0 && x == k * q + r && 0 <= r < k
    ensures x / k == q && x % k == r
  {
    var q', r' := x / k, x % k;
    assert x == k * q' + r';
    assert k * (q' - q) == r - r' by { assert k * (q' - q) == k * q' - k * q; }
    NoSmallMultiple(k, q' - q);
  }
}
