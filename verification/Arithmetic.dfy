/** Facts about products, quotients and remainders of integers that the solver
    does not find among other terms. */
module Arithmetic {

  function Abs(x: int): nat { if x < 0 then -x else x }

  // ----- products -----

  lemma MulLe(k: int, a: int, b: int)
    requires 0 <= k && a <= b
    ensures k * a <= k * b
  {
  }

  lemma MulLt(k: int, a: int, b: int)
    requires 0 < k && a < b
    ensures k * a < k * b
  {
  }

  lemma Distribute(a: int, b: int, k: int)
    ensures (a + b) * k == a * k + b * k
  {
  }

  lemma SquareNonNegative(x: int)
    ensures x * x >= 0
  {
  }

  /** A mean of two values with weights w - f and f lies between bounds of both. */
  lemma WeightedBetween(a: int, b: int, w: int, f: int, lo: int, hi: int)
    requires lo <= a <= hi && lo <= b <= hi && 0 <= f <= w
    ensures w * lo <= a * (w - f) + b * f <= w * hi
  {
    MulLe(f, lo, b);
    MulLe(f, b, hi);
    MulLe(w - f, lo, a);
    MulLe(w - f, a, hi);
    assert f * lo + (w - f) * lo == w * lo;
    assert f * hi + (w - f) * hi == w * hi;
  }

  /** |x| <= p and |y| <= q bound the product. */
  lemma MulBound(x: int, y: int, p: int, q: int)
    requires -p <= x <= p && -q <= y <= q
    ensures -(p * q) <= x * y <= p * q
  {
    MulLe(q - y, x, p);
    MulLe(q - y, -p, x);
    MulLe(q + y, x, p);
    MulLe(q + y, -p, x);
    assert (q - y) * x == q * x - y * x && (q + y) * x == q * x + y * x;
    assert (q - y) * p == q * p - y * p && (q + y) * p == q * p + y * p;
    assert (q - y) * (-p) == -(q * p) + y * p && (q + y) * (-p) == -(q * p) - y * p;
  }

  // ----- quotients -----

  lemma MulAtLeast(d: int, k: int)
    requires d > 0
    ensures k >= 1 ==> d * k >= d
    ensures k <= -1 ==> d * k <= -d
  {
  }

  /** Quotient and remainder are unique. */
  lemma QuotientIs(x: int, d: int, q: int, r: int)
    requires d > 0 && 0 <= r < d && x == d * q + r
    ensures x / d == q && x % d == r
  {
    var p := x / d;
    assert d * (p - q) == r - x % d;
    MulAtLeast(d, p - q);
  }

  lemma QuotientRemainder(x: int, d: int)
    requires d > 0
    ensures x == d * (x / d) + x % d && 0 <= x % d < d
  {
  }

  /** A remainder taken early does not change the final one. */
  lemma RemainderOfSum(x: int, y: int, d: int)
    requires d > 0
    ensures (x % d + y) % d == (x + y) % d
  {
    var z := x % d + y;
    assert x + y == d * (x / d + z / d) + z % d;
    QuotientIs(x + y, d, x / d + z / d, z % d);
  }

  lemma MultipleRemainder(d: int, k: int)
    requires d > 0
    ensures d * k % d == 0
  {
    QuotientIs(d * k, d, k, 0);
  }

  lemma CancelLt(k: int, a: int, b: int)
    requires k > 0 && k * a < k * b
    ensures a < b
  {
  }

  lemma CancelLe(k: int, a: int, b: int)
    requires k > 0 && k * a <= k * b
    ensures a <= b
  {
  }

  lemma CancelEq(k: int, a: int, b: int)
    requires k > 0 && k * a == k * b
    ensures a == b
  {
  }
}
