/**
 * The one piece of JavaScript number arithmetic the application relies on:
 * `Math.round` applied to a quotient of integers.
 */
module JsNumber {

  /**
   * `Math.round(p / q)` for integers `p` and `q > 0`.  `Math.round(x)` is
   * `floor(x + 1/2)`, so halves round up (towards positive infinity) and
   * `-2.5` rounds to `-2`.  The result is the integer nearest to `p / q`.
   */
  function RoundQuotient(p: int, q: int): (r: int)
    requires q > 0
    ensures 2 * p - q < 2 * q * r <= 2 * p + q
  {
    var n, d := 2 * p + q, 2 * q;
    var r := n / d;
    assert n == d * r + n % d && 0 <= n % d < d;
    r
  }

  /** The rounded quotient of values lying in `lo..hi` also lies in `lo..hi`. */
  lemma RoundQuotientWithin(p: int, q: int, lo: int, hi: int)
    requires q > 0
    requires q * lo <= p <= q * hi
    ensures lo <= RoundQuotient(p, q) <= hi
  {
    var r := RoundQuotient(p, q);
    if r < lo {
      // 2q*r <= 2q*(lo - 1) = 2q*lo - 2q <= 2p - 2q < 2p - q
      assert 2 * q * r <= 2 * q * (lo - 1) by {
        assert r <= lo - 1;
        MulMonotone(2 * q, r, lo - 1);
      }
      assert false;
    }
    if r > hi {
      assert 2 * q * r >= 2 * q * (hi + 1) by {
        assert hi + 1 <= r;
        MulMonotone(2 * q, hi + 1, r);
      }
      assert false;
    }
  }

  lemma MulMonotone(k: int, a: int, b: int)
    requires k >= 0 && a <= b
    ensures k * a <= k * b
  {
    assert k * b - k * a == k * (b - a);
  }
}
