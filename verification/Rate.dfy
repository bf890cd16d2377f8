/** The emission interval of a rate of `n` actions per period. */
module Rate {
  import opened Prelude
  import opened Float

  /** Nanoseconds between two actions; zero when there are no actions or no period. */
  function PerPeriod(fl: Rounding, n: i64, period: int): i64 {
    if n == 0 || period == 0 then 0 else Quotient(fl, period, n)
  }

  /**
   The detour through doubles loses nothing below 2^53: the interval is the largest whole number
   of nanoseconds such that `n` of them fit in the period, and it is zero just when `n` actions
   are more than the period has nanoseconds.
   */
  lemma PerPeriodExact(fl: Rounding, n: i64, period: int)
    requires 0 < n < TWO53 && 0 < period < TWO53
    ensures var t := PerPeriod(fl, n, period);
            && 0 <= t * n <= period < (t + 1) * n
            && t == period / n
            && (t == 0 <==> period < n)
  {
    QuotientExact(fl, period, n);
    Division(period, n);
  }

  /** No actions, or no time for them, is the zero rate that `rate_limit` refuses. */
  lemma PerPeriodZero(fl: Rounding, n: i64, period: int)
    requires n == 0 || period == 0
    ensures PerPeriod(fl, n, period) == 0
  {
  }

  /** With either of them negative, the interval is the quotient cut toward zero. */
  lemma PerPeriodSigned(fl: Rounding, n: i64, period: int)
    requires -TWO53 < n < TWO53 && -TWO53 < period < TWO53 && n != 0
    ensures PerPeriod(fl, n, period) == if n > 0 then TruncDiv(period, n) else TruncDiv(-period, -n)
  {
    if n > 0 {
      QuotientExact(fl, period, n);
    } else {
      QuotientOfNegated(fl, period, n);
      QuotientExact(fl, -period, -n);
    }
  }
}
