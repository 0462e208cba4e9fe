/**
 * The vote estimator `approx_votes`: from a post's score and its upvote
 * ratio, estimate how many up- and downvotes produced them.  Arithmetic is
 * over exact reals; Python's floats are not modelled.
 */
module Votes {
  import opened Wrappers

  /** An estimated (upvotes, downvotes) pair. */
  datatype Estimate = Estimate(up: int, down: int)

  /** Ratios this close to one half are rejected (the denominator would be about zero). */
  const Tolerance: real := 0.000001

  function Abs(x: real): (r: real)
    ensures r >= 0.0 && (r == x || r == -x)
  {
    if x < 0.0 then -x else x
  }

  function MaxInt(a: int, b: int): (r: int)
    ensures r >= a && r >= b && (r == a || r == b)
  {
    if a < b then b else a
  }

  /** Python's `round(x)`: nearest integer, ties to the even neighbour. */
  function RoundHalfEven(x: real): (n: int)
    ensures x - 0.5 <= n as real <= x + 0.5
    ensures (n as real - x == 0.5 || x - n as real == 0.5) ==> n % 2 == 0
  {
    var f := x.Floor;
    var frac := x - f as real;
    if frac < 0.5 then f
    else if frac > 0.5 then f + 1
    else if f % 2 == 0 then f
    else f + 1
  }

  /**
   * `approx_votes(score, upvote_ratio)`; `None` stands for the pair
   * `(None, None)`.  The source's ZeroDivisionError handler cannot fire,
   * because the tolerance guard already excludes a zero denominator.
   */
  function ApproxVotes(score: Option<real>, ratio: Option<real>): (e: Option<Estimate>)
    ensures e.Some? ==> score.Some? && ratio.Some? && 0.0 < ratio.value < 1.0
    ensures e.Some? ==> e.value.up >= 0 && e.value.down >= 0
    ensures ratio == Some(0.5) ==> e.None?
  {
    if score.None? || ratio.None? then None
    else
      var s, r := score.value, ratio.value;
      if r <= 0.0 || r >= 1.0 || Abs(2.0 * r - 1.0) < Tolerance then None
      else
        var n := Total(s, r);
        if n <= 0.0 then None
        else Some(Split(r, n))
  }

  /** The vote total `n = score / (2r - 1)`: the `n` with `(2r - 1)·n = score`. */
  function Total(s: real, r: real): (n: real)
    requires 2.0 * r - 1.0 != 0.0
    ensures (2.0 * r - 1.0) * n == s
  {
    var d := 2.0 * r - 1.0;
    DivisionInverse(s, d);
    s / d
  }

  /** `n` votes split by ratio `r`, each part rounded and clamped at zero. */
  function Split(r: real, n: real): Estimate
  {
    Estimate(MaxInt(0, RoundHalfEven(r * n)), MaxInt(0, RoundHalfEven((1.0 - r) * n)))
  }

  /** A quotient is positive exactly when dividend and divisor have the same sign. */
  lemma QuotientSign(s: real, d: real)
    requires d != 0.0
    ensures s / d > 0.0 <==> s * d > 0.0
  {
    var q := s / d;
    assert s == q * d;
    assert s * d == q * (d * d);
    assert d * d > 0.0;
    if q > 0.0 {
      assert q * (d * d) > 0.0;
    } else {
      assert q * (d * d) <= 0.0;
    }
  }

  /**
   * An estimate exists exactly when both inputs are present, the ratio lies
   * strictly between 0 and 1 and not within the tolerance of one half, and
   * the score has the sign the ratio implies (positive above one half,
   * negative below).
   */
  lemma EstimateDefined(score: Option<real>, ratio: Option<real>)
    ensures ApproxVotes(score, ratio).Some? <==>
      score.Some? && ratio.Some? && 0.0 < ratio.value < 1.0
      && Abs(2.0 * ratio.value - 1.0) >= Tolerance
      && score.value * (2.0 * ratio.value - 1.0) > 0.0
  {
    if score.Some? && ratio.Some? {
      var s, r := score.value, ratio.value;
      if 0.0 < r < 1.0 && Abs(2.0 * r - 1.0) >= Tolerance {
        QuotientSign(s, 2.0 * r - 1.0);
      }
    }
  }

  /** A ratio of exactly one half, zero or one never yields an estimate, whatever the score. */
  lemma DegenerateRatios(score: Option<real>)
    ensures ApproxVotes(score, Some(0.5)).None?
    ensures ApproxVotes(score, Some(0.0)).None?
    ensures ApproxVotes(score, Some(1.0)).None?
  {
  }

  /** Rounding two positive parts keeps their difference and their sum within one. */
  lemma RoundedParts(u: real, w: real)
    requires u > 0.0 && w > 0.0
    ensures MaxInt(0, RoundHalfEven(u)) == RoundHalfEven(u) >= 0
    ensures MaxInt(0, RoundHalfEven(w)) == RoundHalfEven(w) >= 0
    ensures (u - w) - 1.0 <= (RoundHalfEven(u) - RoundHalfEven(w)) as real <= (u - w) + 1.0
    ensures (u + w) - 1.0 <= (RoundHalfEven(u) + RoundHalfEven(w)) as real <= (u + w) + 1.0
  {
  }

  /** The two parts of a split add up to `n` and differ by `(2r - 1)·n`. */
  lemma SplitAlgebra(r: real, n: real)
    ensures r * n - (1.0 - r) * n == (2.0 * r - 1.0) * n
    ensures r * n + (1.0 - r) * n == n
  {
  }

  /**
   * Splitting `n > 0` votes by a ratio strictly between 0 and 1 gives two
   * non-negative counts whose difference is within one of `(2r - 1)·n` and
   * whose sum is within one of `n`.
   */
  lemma SplitClose(r: real, n: real)
    requires 0.0 < r < 1.0 && n > 0.0
    ensures Split(r, n).up >= 0 && Split(r, n).down >= 0
    ensures (2.0 * r - 1.0) * n - 1.0 <= (Split(r, n).up - Split(r, n).down) as real <= (2.0 * r - 1.0) * n + 1.0
    ensures n - 1.0 <= (Split(r, n).up + Split(r, n).down) as real <= n + 1.0
  {
    PositiveProduct(r, n);
    PositiveProduct(1.0 - r, n);
    RoundedParts(r * n, (1.0 - r) * n);
    SplitAlgebra(r, n);
  }

  lemma PositiveProduct(a: real, b: real)
    requires a > 0.0 && b > 0.0
    ensures a * b > 0.0
  {
  }

  lemma DivisionInverse(s: real, d: real)
    requires d != 0.0
    ensures d * (s / d) == s
  {
  }

  /**
   * An estimate is the split of a positive vote total `n` with
   * `(2r - 1)·n = score`, by a ratio strictly between 0 and 1.
   */
  lemma EstimateIsSplit(s: real, r: real, e: Estimate)
    requires ApproxVotes(Some(s), Some(r)) == Some(e)
    ensures 0.0 < r < 1.0 && 2.0 * r - 1.0 != 0.0
    ensures Total(s, r) > 0.0 && (2.0 * r - 1.0) * Total(s, r) == s && e == Split(r, Total(s, r))
  {
  }

  /**
   * With EstimateIsSplit: a split of the total inverts `score = up - down`
   * and `total = up + down` up to rounding.  Both counts are non-negative,
   * their difference is within one of the score and their sum within one of
   * the total.
   */
  lemma SplitConsistent(s: real, r: real, e: Estimate)
    requires 0.0 < r < 1.0 && 2.0 * r - 1.0 != 0.0
    requires Total(s, r) > 0.0 && e == Split(r, Total(s, r))
    ensures e.up >= 0 && e.down >= 0
    ensures s - 1.0 <= (e.up - e.down) as real <= s + 1.0
    ensures Total(s, r) - 1.0 <= (e.up + e.down) as real <= Total(s, r) + 1.0
  {
    SplitClose(r, Total(s, r));
  }

  /**
   * Whenever `approx_votes` gives an estimate, both counts are non-negative,
   * their difference is within one of the score, and their sum is within one
   * of the total `score / (2r - 1)` it was split from.
   */
  lemma EstimateClose(s: real, r: real, e: Estimate)
    requires ApproxVotes(Some(s), Some(r)) == Some(e)
    ensures e.up >= 0 && e.down >= 0
    ensures s - 1.0 <= (e.up - e.down) as real <= s + 1.0
    ensures Total(s, r) - 1.0 <= (e.up + e.down) as real <= Total(s, r) + 1.0
  {
    EstimateIsSplit(s, r, e);
    SplitConsistent(s, r, e);
  }

  /** The worked example: score 100 at ratio 0.75 is 150 up and 50 down. */
  lemma EstimateExample()
    ensures ApproxVotes(Some(100.0), Some(0.75)) == Some(Estimate(150, 50))
  {
    assert 2.0 * 0.75 - 1.0 == 0.5;
    assert 100.0 / 0.5 == 200.0;
    assert 0.75 * 200.0 == 150.0;
    assert (1.0 - 0.75) * 200.0 == 50.0;
    assert RoundHalfEven(150.0) == 150;
    assert RoundHalfEven(50.0) == 50;
  }
}
