/** Facts about ordered arithmetic on `real` and `int` used by the payout and
    pricing proofs, kept apart so that each is proved without other context. */
module Arith {
  import opened Common

  /** The share `p = T*s/W` of a stake `0 < s <= W <= T` lies in `[s, T]`. */
  lemma ShareBounds(p: real, s: real, w: real, t: real)
    requires 0.0 < s <= w <= t
    requires p * w == t * s
    ensures s <= p <= t
  {
    ShareAtLeastStake(p, s, w, t);
    ShareAtMostPool(p, s, w, t);
  }

  lemma ShareAtLeastStake(p: real, s: real, w: real, t: real)
    requires 0.0 < s <= w <= t
    requires p * w == t * s
    ensures s <= p
  {
    assert t * s == p * w;
    assert s * w <= s * t;
    assert s * t == t * s;
    assert s * w <= p * w;
  }

  lemma ShareAtMostPool(p: real, s: real, w: real, t: real)
    requires 0.0 < s <= w <= t
    requires p * w == t * s
    ensures p <= t
  {
    assert t * s <= t * w;
    assert p * w <= t * w;
  }

  /** A positive ratio `v = t / w` with `w <= t` is at least 1. */
  lemma RatioAtLeastOne(v: real, w: real, t: real)
    requires 0.0 < w <= t && v * w == t
    ensures v >= 1.0
  {
    assert 1.0 * w <= v * w;
  }

  /** `k = int(p)` for the share `p = t*s/w`, restated over integers. */
  lemma TruncScaled(k: int, p: real, s: int, t: int, w: int)
    requires 0 < w
    requires k as real <= p < (k as real) + 1.0
    requires p * (w as real) == (t as real) * (s as real)
    ensures k * w <= t * s
    ensures t * s + 1 <= (k + 1) * w
  {
    ScaledLow(k, p, s, t, w);
    ScaledHigh(k + 1, p, s, t, w);
  }

  lemma ScaledLow(k: int, p: real, s: int, t: int, w: int)
    requires 0 < w && k as real <= p
    requires p * (w as real) == (t as real) * (s as real)
    ensures k * w <= t * s
  {
    MulLess(k as real, p, w as real);
    CastProduct(k, w);
    CastProduct(t, s);
  }

  lemma ScaledHigh(k: int, p: real, s: int, t: int, w: int)
    requires 0 < w && p < k as real
    requires p * (w as real) == (t as real) * (s as real)
    ensures t * s < k * w
  {
    MulLess(p, k as real, w as real);
    CastProduct(k, w);
    CastProduct(t, s);
  }

  /** Converting an integer product to `real` multiplies the converted factors. */
  lemma CastProduct(a: int, b: int)
    ensures (a * b) as real == (a as real) * (b as real)
  {
  }

  lemma MulLess(a: real, b: real, c: real)
    requires 0.0 < c
    ensures a <= b ==> a * c <= b * c
    ensures a < b ==> a * c < b * c
  {
  }

  /** Cancelling a positive factor from both sides of `<=`. */
  lemma CancelLe(a: int, b: int, w: int)
    requires 0 < w && a * w <= b * w
    ensures a <= b
  {
  }

  /** Cancelling a positive factor from both sides of `<`. */
  lemma CancelLt(a: int, b: int, w: int)
    requires 0 < w && a * w < b * w
    ensures a < b
  {
  }

  /** `k` is the integer part of `t * s / w`, stated without division. */
  predicate ScaledFloor(k: int, s: int, t: int, w: int) {
    k * w <= t * s && t * s + 1 <= (k + 1) * w
  }

  /** `int(T * s / W)` for a stake `0 < s <= W <= T`: positive, at least the
      stake, and the integer `k` with `k*W <= T*s < (k+1)*W`. */
  lemma TruncShare(p: real, s: int, w: int, t: int)
    requires 0 < s <= w <= t
    requires p * (w as real) == (t as real) * (s as real)
    ensures 0.0 < p
    ensures s <= Trunc(p)
    ensures ScaledFloor(Trunc(p), s, t, w)
  {
    ShareBounds(p, s as real, w as real, t as real);
    TruncAtLeast(p, s);
    TruncScaled(Trunc(p), p, s, t, w);
  }

  /** Adding one more scaled floor to a running sum of them. */
  lemma ScaledFloorStep(k: int, s: int, kk: int, ss: int, n: int, t: int, w: int)
    requires ScaledFloor(k, s, t, w)
    requires kk * w <= t * ss && t * ss + n <= (kk + n) * w
    ensures (k + kk) * w <= t * (s + ss)
    ensures t * (s + ss) + (n + 1) <= (k + kk + (n + 1)) * w
  {
    assert (k + kk) * w == k * w + kk * w;
    assert t * (s + ss) == t * s + t * ss;
    assert (k + kk + (n + 1)) * w == (k + 1) * w + (kk + n) * w;
  }

  /** After a trade the pool bought from holds `k / (y + p)` and the other
      `y + p`: their product is `k` again. */
  lemma TradeKeepsProduct(y: real, p: real, k: real)
    requires y + p != 0.0
    ensures (k / (y + p)) * (y + p) == k
  {
  }

  /** With `x * y == k` and positive pools, spending `p > 0` buys a positive
      number of shares that is below the pool `x`. */
  lemma SharesWithinPool(x: real, y: real, p: real, k: real)
    requires 0.0 < x && 0.0 < y && 0.0 < p && x * y == k
    ensures 0.0 < k / (y + p) < x
  {
    var q := k / (y + p);
    assert q * (y + p) == k;
    assert q * (y + p) == x * y;
    assert 0.0 < k;
    assert 0.0 < q;
    assert q * y < q * (y + p);
    MulLess(q, x, y);
  }

  /** A pool sum is positive when both pools are. */
  lemma PositiveSum(x: real, y: real)
    requires 0.0 < x && 0.0 < y
    ensures 0.0 < x + y
  {
  }

  /** Diminishing returns: with `x * y == k`, the shares bought by `p` from the
      pools `(k / (y + p), y + p)` left by a first purchase of `p` are fewer
      than those of the first purchase. */
  lemma DiminishingShares(x: real, y: real, p: real, k: real)
    requires 0.0 < x && 0.0 < y && 0.0 < p && x * y == k
    ensures k / (y + p) - k / ((y + p) + p) < x - k / (y + p)
  {
    var a := k / (y + p);
    var b := k / ((y + p) + p);
    assert a * (y + p) == k;
    assert b * ((y + p) + p) == k;
    // x - a = a*p/y and a - b = b*p/(y+p); both are multiplied out below.
    assert (x - a) * y == a * p by {
      assert x * y == a * (y + p);
    }
    assert (a - b) * (y + p) == b * p by {
      assert a * (y + p) == b * ((y + p) + p);
    }
    SharesWithinPool(x, y, p, k);
    assert 0.0 < b < a;
    assert (a - b) * (y + p) == b * p;
    assert b * p < a * p;
    assert (a - b) * (y + p) < (x - a) * y;
    assert y < y + p;
  }

  /** The price of the shares that `p` buys is `p` again. */
  lemma PriceOfShares(x: real, y: real, p: real, k: real)
    requires 0.0 < k && 0.0 < y + p
    ensures 0.0 < k / (y + p)
    ensures k / (k / (y + p)) - y == p
  {
    var q := k / (y + p);
    assert q * (y + p) == k;
    assert 0.0 < q;
    assert k / q == y + p;
  }

  /** Buying `s` shares out of the pool `x` costs `k / (x - s) - y`, which is
      not negative, and spending it buys exactly `s` shares. */
  lemma SharesOfPrice(x: real, y: real, s: real, k: real)
    requires 0.0 < x && 0.0 < y && x * y == k && 0.0 <= s < x
    ensures 0.0 <= k / (x - s) - y
    ensures y + (k / (x - s) - y) != 0.0
    ensures x - k / (y + (k / (x - s) - y)) == s
  {
    var q := k / (x - s);
    assert q * (x - s) == k;
    assert q * (x - s) == x * y;
    assert 0.0 < k;
    assert 0.0 < q;
    assert y + (q - y) == q;
    assert k / q == x - s;
  }

  /** `s * (t / w)` and `t * (s / w)` are the same share. */
  lemma ShareForms(s: real, t: real, w: real)
    requires w != 0.0
    ensures s * (t / w) == t * (s / w)
  {
    var a := t / w;
    var b := s / w;
    assert a * w == t;
    assert b * w == s;
    assert (s * a) * w == s * t;
    assert (t * b) * w == t * s;
  }

  /** The quote for `p > 0` points buying `n > 0` shares: the price per share is
      positive, `price * n == p`, and `p * (1 / price) == n`. */
  lemma QuoteArith(p: real, n: real)
    requires 0.0 < p && 0.0 < n
    ensures 0.0 < p / n
    ensures (p / n) * n == p
    ensures p * (1.0 / (p / n)) == n
  {
    var q := p / n;
    assert q * n == p;
    assert 0.0 < q;
    assert (1.0 / q) * q == 1.0;
    assert p * (1.0 / q) == n * q * (1.0 / q);
  }

  /** Pool odds `(x + y) / (2 * pool)`: the implied probabilities
      `1 / (2 * odds)` are `pool / (x + y)` and sum to 1. */
  lemma PoolOdds(x: real, y: real)
    requires 0.0 < x && 0.0 < y
    ensures 1.0 / (2.0 * ((x + y) / (x * 2.0))) == x / (x + y)
    ensures x / (x + y) + y / (x + y) == 1.0
  {
    var t := x + y;
    var o := t / (x * 2.0);
    assert o * (x * 2.0) == t;
    assert 2.0 * o == t / x;
    assert (t / x) * x == t;
    assert 1.0 / (t / x) == x / t;
  }

  /** The larger pool has the smaller odds. */
  lemma OddsOrder(x: real, y: real)
    requires 0.0 < x < y
    ensures (x + y) / (y * 2.0) < (x + y) / (x * 2.0)
  {
    var t := x + y;
    var a := t / (y * 2.0);
    var b := t / (x * 2.0);
    assert a * (y * 2.0) == t;
    assert b * (x * 2.0) == t;
    assert 0.0 < a;
    assert a * (x * 2.0) < a * (y * 2.0);
  }

  /** One purchase of `p > 0` points against pools `x * y == k`: the shares
      `x - k / (y + p)` are in `(0, x)`, and the new pools are positive with
      product `k`, read from either side. */
  lemma Trade(x: real, y: real, p: real, k: real)
    requires 0.0 < x && 0.0 < y && 0.0 < p && x * y == k
    ensures 0.0 < x - k / (y + p) < x
    ensures 0.0 < x - (x - k / (y + p)) && 0.0 < y + p
    ensures (x - (x - k / (y + p))) * (y + p) == k
    ensures (y + p) * (x - (x - k / (y + p))) == k
  {
    SharesWithinPool(x, y, p, k);
    var q := k / (y + p);
    TradeKeepsProduct(y, p, k);
    assert x - (x - q) == q;
  }

  /** The pools after a purchase, named: positive with product `k`. */
  lemma TradedPools(x: real, y: real, p: real, k: real, x2: real, y2: real)
    requires 0.0 < x && 0.0 < y && 0.0 < p && x * y == k
    requires x2 == x - (x - k / (y + p)) && y2 == y + p
    ensures 0.0 < x2 && 0.0 < y2
    ensures x2 * y2 == k && y2 * x2 == k
  {
    Trade(x, y, p, k);
  }

  /** A product is unchanged when its factors are replaced by equal values. */
  lemma SameProduct(a: real, b: real, c: real, d: real, k: real)
    requires a == c && b == d && c * d == k
    ensures a * b == k
  {
  }
}
