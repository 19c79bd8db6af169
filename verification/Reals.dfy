/** Order and arithmetic on reals: each lemma is one step the solver does not find inside a
    larger proof. */
module Reals {

  /** `max(x, y)`. */
  function Larger(x: real, y: real): real {
    if y > x then y else x
  }

  /** `min(x, y)`. */
  function Smaller(x: real, y: real): real {
    if y < x then y else x
  }

  function Clamp(x: real, low: real, high: real): real {
    if x > high then high else if x < low then low else x
  }

  lemma PositiveProduct(x: real, y: real)
    requires x > 0.0 && y > 0.0
    ensures x * y > 0.0
  {
  }

  lemma ProductsOrder(c: real, x: real, y: real)
    requires c >= 0.0 && x <= y
    ensures c * x <= c * y
    ensures x * c <= y * c
  {
    assert c * (y - x) >= 0.0;
    assert c * (y - x) == c * y - c * x;
  }

  lemma CancelFactor(x: real, y: real, n: real)
    requires n > 0.0 && x * n <= y * n
    ensures x <= y
  {
    if x > y {
      PositiveProduct(x - y, n);
    }
  }

  lemma QuotientTimes(x: real, n: real)
    requires n != 0.0
    ensures (x / n) * n == x
  {
  }

  lemma QuotientAtMost(x: real, d: real, bound: real)
    requires d > 0.0 && x <= bound * d
    ensures x / d <= bound
  {
    QuotientTimes(x, d);
    CancelFactor(x / d, bound, d);
  }

  lemma QuotientAtLeast(x: real, d: real, bound: real)
    requires d > 0.0 && x >= bound * d
    ensures x / d >= bound
  {
    QuotientTimes(x, d);
    CancelFactor(bound, x / d, d);
  }

  /** The mean of `n` numbers in the unit interval. */
  lemma MeanInUnit(sum: real, n: real)
    requires n > 0.0 && 0.0 <= sum <= n
    ensures 0.0 <= sum / n <= 1.0 && (sum / n) * n == sum
  {
    QuotientTimes(sum, n);
    QuotientAtLeast(sum, n, 0.0);
    QuotientAtMost(sum, n, 1.0);
  }
}
