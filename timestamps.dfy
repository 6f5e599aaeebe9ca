/**
 * Time arithmetic used by the mixer: C's truncating integer division and the
 * drift-free timestamp accumulator `date_t` (date_Set / date_Get /
 * date_Increment). Times are `mtime_t` values in microseconds; integers are
 * unbounded here (64-bit overflow is not modelled).
 */
module Timestamps {

  /** `mtime_t` counts microseconds. */
  const UsPerSecond: int := 1000000

  /** C integer division of `a` by a positive `b`: truncates toward zero. */
  function TruncDiv(a: int, b: int): (q: int)
    requires b > 0
    ensures a >= 0 ==> q >= 0 && 0 <= a - q * b < b
    ensures a < 0 ==> q <= 0 && -b < a - q * b <= 0
  {
    if a >= 0 then DivBounds(a, b); a / b
    else
      DivBounds(-a, b);
      var d := (-a) / b;
      assert (-d) * b == -(d * b);
      -d
  }

  /** A negative multiple of a positive `b` is at most `-b`. */
  lemma NegTimesPos(q: int, b: int)
    requires q < 0 && b > 0
    ensures q * b <= -b
  {
    var k := -q - 1;
    assert q * b == -b - k * b;
    assert k * b >= 0;
  }

  /** Euclidean division of a non-negative `n`: the quotient is non-negative, the remainder below `b`. */
  lemma DivBounds(n: int, b: int)
    requires n >= 0 && b > 0
    ensures n / b >= 0 && 0 <= n - n / b * b < b
  {
    var d := n / b;
    assert n == d * b + n % b;
    if d < 0 { NegTimesPos(d, b); }
  }

  /** Truncating division is odd in its dividend: `(-a) / b == -(a / b)` in C. */
  lemma TruncDivNeg(a: int, b: int)
    requires b > 0
    ensures TruncDiv(-a, b) == -TruncDiv(a, b)
  {
    if a < 0 {
      assert -(-a) == a;
    }
  }

  /** The nested-division identity for a non-negative dividend, from Euclidean division. */
  lemma DivDivNonNeg(x: int, a: int, b: int)
    requires x >= 0 && a > 0 && b > 0
    ensures (x / a) / b == x / (a * b)
  {
    var q1 := x / a;
    var q2 := q1 / b;
    NestedRemainder(x, a, b, q1, x % a, q2, q1 % b);
    DivModUnique(q2, (q1 % b) * a + x % a, a * b, x);
  }

  /**
   * From `x == q1 * a + r1` and `q1 == q2 * b + r2` with both remainders in
   * range, `x == q2 * (a * b) + r` with `r` in range for `a * b`.
   */
  lemma NestedRemainder(x: int, a: int, b: int, q1: int, r1: int, q2: int, r2: int)
    requires a > 0 && b > 0 && 0 <= r1 < a && 0 <= r2 < b
    requires x == q1 * a + r1 && q1 == q2 * b + r2
    ensures 0 <= r2 * a + r1 < a * b && x == q2 * (a * b) + (r2 * a + r1)
  {
    assert 0 <= r2 * a;
    assert r2 * a + a <= a * b by {
      assert (b - 1 - r2) * a >= 0;
      assert (b - 1 - r2) * a == a * b - r2 * a - a;
    }
    assert q1 * a == q2 * (a * b) + r2 * a;
  }

  /**
   * Two truncating divisions in a row equal one division by the product:
   * `x / a / b == x / (a * b)` in C, so nothing is lost between the steps.
   */
  lemma TruncDivNested(x: int, a: int, b: int)
    requires a > 0 && b > 0
    ensures TruncDiv(TruncDiv(x, a), b) == TruncDiv(x, a * b)
  {
    if x >= 0 {
      DivDivNonNeg(x, a, b);
    } else {
      DivDivNonNeg(-x, a, b);
      TruncDivNeg(x, a);
      TruncDivNeg(TruncDiv(-x, a), b);
      TruncDivNeg(x, a * b);
    }
  }

  /**
   * `a` rounded toward zero to a multiple of `b` (C's `a /= b; a *= b`):
   * the nearest multiple on the side of zero, within one `b` of `a`.
   */
  function TruncToMultiple(a: int, b: int): (s: int)
    requires b > 0
    ensures s % b == 0
    ensures a >= 0 ==> 0 <= s <= a < s + b
    ensures a < 0 ==> s - b < a <= s <= 0
  {
    var q := TruncDiv(a, b);
    DivModUnique(q, 0, b, q * b);
    q * b
  }

  /**
   * A timestamp accumulator: `date` plus a fractional remainder `rem`
   * counted in 1/`rate` of a microsecond, so that adding whole sample
   * counts at `rate` Hz never drifts. (The output fifo's accumulator is
   * initialised with the output sample rate and a divider denominator of 1.)
   */
  datatype Date = Date(date: int, rem: int, rate: int) {

    ghost predicate Valid() {
      rate > 0 && 0 <= rem < rate
    }

    /** date_Set: a new origin; the fractional remainder is discarded. */
    function Set(t: int): (d: Date)
      requires Valid()
      ensures d.Valid() && d.date == t && d.rem == 0 && d.rate == rate
    {
      Date(t, 0, rate)
    }

    /** date_Increment: advance by `n` samples at `rate` Hz, carrying the remainder. */
    function Increment(n: nat): (d: Date)
      requires Valid()
      ensures d.Valid() && d.rate == rate
      ensures d.date * rate + d.rem == date * rate + rem + n * UsPerSecond
    {
      var dividend := n * UsPerSecond;
      var date' := date + dividend / rate;
      var rem' := rem + dividend % rate;
      if rem' >= rate then Date(date' + 1, rem' - rate, rate) else Date(date', rem', rate)
    }
  }

  /** If `x * b + r == k` with `0 <= r < b`, then `x` and `r` are the quotient and remainder of `k` by `b`. */
  lemma DivModUnique(x: int, r: int, b: int, k: int)
    requires b > 0 && 0 <= r < b && x * b + r == k
    ensures x == k / b && r == k % b
  {
    var m := x - k / b;
    assert m * b == k % b - r by {
      calc {
        m * b;
        x * b - (k / b) * b;
        (k - r) - (k - k % b);
      }
    }
  }

  /** If `x * b + r == t * b + e` with `0 <= r < b`, then `x` is `t + e / b`. */
  lemma QuotientAfterShift(x: int, r: int, b: int, t: int, e: int)
    requires b > 0 && 0 <= r < b && x * b + r == t * b + e
    ensures x == t + e / b
  {
    var m := x - t - e / b;
    assert m * b == e % b - r by {
      calc {
        m * b;
        x * b - t * b - (e / b) * b;
        (e - r) - (e - e % b);
      }
    }
  }

  /**
   * One increment moves the date forward by the whole number of
   * microseconds in `n` samples, or by one more when the remainder carries.
   */
  lemma IncrementStep(d: Date, n: nat)
    requires d.Valid()
    ensures var q := n * UsPerSecond / d.rate;
            d.Increment(n).date == d.date + q || d.Increment(n).date == d.date + q + 1
  {
  }

  /** `k` successive increments of `n` samples from `d`. */
  function Advance(d: Date, n: nat, k: nat): (r: Date)
    requires d.Valid()
    ensures r.Valid() && r.rate == d.rate
    decreases k
  {
    if k == 0 then d else Advance(d, n, k - 1).Increment(n)
  }

  /** No time is lost or gained: the accumulator conserves every sample. */
  lemma {:induction false} AdvanceConserves(d: Date, n: nat, k: nat)
    requires d.Valid()
    ensures Advance(d, n, k).date * d.rate + Advance(d, n, k).rem
         == d.date * d.rate + d.rem + k * (n * UsPerSecond)
  {
    if k > 0 {
      AdvanceConserves(d, n, k - 1);
      assert k * (n * UsPerSecond) == (k - 1) * (n * UsPerSecond) + n * UsPerSecond;
    }
  }

  /**
   * Drift-freedom: after `k` windows of `n` samples from a freshly set
   * origin `t`, the date is exactly `t` plus the elapsed time rounded down.
   */
  lemma DriftFree(t: int, rate: int, n: nat, k: nat)
    requires rate > 0
    ensures Advance(Date(t, 0, rate), n, k).date == t + (k * (n * UsPerSecond)) / rate
  {
    var r := Advance(Date(t, 0, rate), n, k);
    AdvanceConserves(Date(t, 0, rate), n, k);
    QuotientAfterShift(r.date, r.rem, rate, t, k * (n * UsPerSecond));
  }
}
