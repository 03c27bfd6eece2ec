/** Integer rounding as the quiz computes it. `Math.round(x)` is
    `floor(x + 1/2)` (halves round towards +infinity); applied to an exact
    quotient `n / d` this is `(2n + d) / (2d)` with floor division, which is
    what Dafny's `/` does for a positive divisor. The source evaluates the
    quotient in floating point; this model uses the exact rational value. */
module Scoring {

  /** `Math.round(n / d)`: the unique integer `r` with
      `r - 1/2 <= n/d < r + 1/2`, stated without fractions. */
  function RoundHalfUp(n: int, d: int): (r: int)
    requires d > 0
    ensures d * (2 * r - 1) <= 2 * n < d * (2 * r + 1)
  {
    var q := (2 * n + d) / (2 * d);
    assert 2 * n + d == (2 * d) * q + (2 * n + d) % (2 * d);
    q
  }

  /** No other integer satisfies the rounding bracket, so the bracket alone
      determines `Math.round`. */
  lemma RoundHalfUpUnique(n: int, d: int, k: int)
    requires d > 0
    requires d * (2 * k - 1) <= 2 * n < d * (2 * k + 1)
    ensures k == RoundHalfUp(n, d)
  {
    var r := RoundHalfUp(n, d);
    if k < r {
      MulMono(d, 2 * k + 1, 2 * r - 1);
    } else if r < k {
      MulMono(d, 2 * r + 1, 2 * k - 1);
    }
  }

  /** Multiplying by a positive number keeps the order. */
  lemma MulMono(a: int, x: int, y: int)
    requires a > 0 && x <= y
    ensures a * x <= a * y
  {
    assert a * y - a * x == a * (y - x);
  }

  /** The percentage shown on the summary and stored in history:
      `Math.round((score / total) * 100)`. */
  function Percentage(score: int, total: int): (p: int)
    requires total > 0
    ensures total * (2 * p - 1) <= 200 * score < total * (2 * p + 1)
    ensures 0 <= score <= total ==> 0 <= p <= 100
    ensures score == total ==> p == 100
    ensures score == 0 ==> p == 0
  {
    RoundedPercentageFacts(score, total);
    RoundHalfUp(100 * score, total)
  }

  lemma RoundedPercentageFacts(score: int, total: int)
    requires total > 0
    ensures 0 <= score <= total ==> 0 <= RoundHalfUp(100 * score, total) <= 100
    ensures score == total ==> RoundHalfUp(100 * score, total) == 100
    ensures score == 0 ==> RoundHalfUp(100 * score, total) == 0
  {
    var p := RoundHalfUp(100 * score, total);
    if 0 <= score <= total {
      if p > 100 {
        MulMono(total, 201, 2 * p - 1);
        MulMono(total, score, total);
      }
      if p < 0 {
        MulMono(total, 2 * p + 1, -1);
      }
    }
    if score == total {
      RoundHalfUpUnique(100 * score, total, 100);
    }
    if score == 0 {
      RoundHalfUpUnique(0, total, 0);
    }
  }

  /** A rounded mean never exceeds an integer bound on every summand:
      if `sum <= n * m` then `Math.round(sum / n) <= m`. */
  lemma RoundedMeanAtMost(sum: int, n: int, m: int)
    requires n > 0 && sum <= n * m
    ensures RoundHalfUp(sum, n) <= m
  {
    var a := RoundHalfUp(sum, n);
    if a > m {
      MulMono(n, 2 * m + 1, 2 * a - 1);
    }
  }
}
