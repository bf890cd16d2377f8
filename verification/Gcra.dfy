/**
 The decision kernel: the generic cell rate algorithm in its virtual scheduling form, charged
 by an increment. Times and durations are integer nanoseconds throughout.
 */
module Gcra {
  import opened Prelude
  import opened Float

  /** `retry_after` when no waiting helps or none is needed. */
  const NO_RETRY: int := -1_000_000_000

  datatype Quota = Quota(maxBurst: i64, period: int)

  /** The limiter's own fields: emission interval, delay variation tolerance and limit. */
  datatype Limits = Limits(interval: int, tolerance: int, limit: int)

  function New(quota: Quota): Limits {
    Limits(quota.period,
           WrapI64(WrapI64(quota.period) * WrapI64(quota.maxBurst + 1)),
           WrapI64(quota.maxBurst + 1))
  }

  function Increment(c: Limits, quantity: i64): i64 {
    WrapI64(WrapI64(c.interval) * quantity)
  }

  /** A positive rate and a nonnegative burst whose product did not overflow. */
  ghost predicate Regular(c: Limits) {
    c.interval > 0 && c.limit >= 1 && c.tolerance == c.interval * c.limit
  }

  lemma AtLeastOnce(t: int, n: int)
    requires t > 0 && n >= 1
    ensures t <= t * n
  {
  }

  lemma IntervalWithinTolerance(c: Limits)
    requires Regular(c)
    ensures c.interval <= c.tolerance
  {
  }

  lemma NewIsRegular(quota: Quota)
    requires 0 < quota.period && 0 <= quota.maxBurst
    requires quota.period * (quota.maxBurst + 1) < TWO63 && quota.maxBurst + 1 < TWO63
    ensures var c := New(quota);
            Regular(c) && c.interval == quota.period && c.limit == quota.maxBurst + 1
  {
    var p, n := quota.period, quota.maxBurst + 1;
    AtLeastOnce(p, n);
    assert WrapI64(p) == p && WrapI64(n) == n;
  }

  lemma IncrementExact(c: Limits, quantity: i64)
    requires 0 < c.interval < TWO63 && 0 <= quantity && c.interval * quantity < TWO63
    ensures Increment(c, quantity) == c.interval * quantity
    ensures Increment(c, quantity) >= 0
  {
    var p := c.interval * quantity;
    NonNegative(c.interval, quantity);
    assert WrapI64(c.interval) == c.interval && WrapI64(p) == p;
  }

  lemma WrapFactor(p: int, n: int)
    ensures WrapI64(p * WrapI64(n)) == WrapI64(p * n)
  {
    WrapCongruent(n);
    CongruentProduct(WrapI64(n), n, p);
    SameWrap(WrapI64(n) * p, n * p);
  }

  /** Overflow or not: limit, tolerance and charge are what they stand for, wrapped once. */
  lemma FieldsWrap(quota: Quota, quantity: i64)
    requires -TWO63 <= quota.period < TWO63
    ensures var c := New(quota);
            && c.interval == quota.period
            && c.limit == WrapI64(quota.maxBurst + 1)
            && c.tolerance == WrapI64(quota.period * (quota.maxBurst + 1))
            && Increment(c, quantity) == WrapI64(quota.period * quantity)
  {
    var p, n := quota.period, quota.maxBurst + 1;
    WrapFactor(p, n);
    assert WrapI64(p) == p;
  }

  /** The arrival time the schedule expected: now, when nothing is stored. */
  function Expected(seen: Option<int>, now: int): int {
    match seen
    case None => now
    case Some(v) => v
  }

  function NewTat(seen: Option<int>, now: int, inc: int): int {
    var tat := Expected(seen, now);
    if now > tat then now + inc else tat + inc
  }

  predicate Blocked(c: Limits, seen: Option<int>, now: int, inc: int) {
    var allowAt := NewTat(seen, now, inc) - c.tolerance;
    now - allowAt < 0
  }

  datatype Verdict = Verdict(limited: bool, retryAfter: int, ttl: int)

  /** What one pass over a value read from the store concludes. */
  function Judge(c: Limits, seen: Option<int>, now: int, inc: int): Verdict {
    var diff := now - (NewTat(seen, now, inc) - c.tolerance);
    if Blocked(c, seen, now, inc) then
      Verdict(true, if inc <= c.tolerance then -diff else NO_RETRY, Expected(seen, now) - now)
    else
      Verdict(false, NO_RETRY, NewTat(seen, now, inc) - now)
  }

  /** What the key holds once that conclusion has been carried out. */
  function After(c: Limits, seen: Option<int>, now: int, inc: int): Option<int> {
    if Blocked(c, seen, now, inc) then seen else Some(NewTat(seen, now, inc))
  }

  datatype Reply = Reply(limit: int, remaining: i64, retryAfter: int, resetAfter: int)

  /** The double quotient of two whole microsecond counts, as an `i64`; division by zero is IEEE's. */
  function WholeShare(fl: Rounding, next: int, interval: int): i64 {
    var a, b := TruncDiv(next, 1_000), TruncDiv(interval, 1_000);
    if b != 0 then Quotient(fl, a, b)
    else if a > 0 then TWO63 - 1
    else if a < 0 then -TWO63
    else 0
  }

  function Finish(c: Limits, fl: Rounding, v: Verdict): Reply {
    var next := c.tolerance - v.ttl;
    Reply(c.limit,
          if next > -c.interval then WholeShare(fl, next, c.interval) else 0,
          v.retryAfter,
          v.ttl)
  }

  /** The stored time as a number, an absent key counting for nothing at the instant `now`. */
  function Level(seen: Option<int>, now: int): int {
    match seen
    case None => now
    case Some(v) => Max(v, now)
  }

  /** The stored time is at most the tolerance ahead. */
  predicate Within(seen: Option<int>, now: int, tolerance: int) {
    seen.Some? ==> seen.value <= now + tolerance
  }

  /** The kernel's arithmetic in one line: what most proofs below start from. */
  lemma Kernel(c: Limits, seen: Option<int>, now: int, inc: int)
    ensures NewTat(seen, now, inc) == Level(seen, now) + inc
    ensures Blocked(c, seen, now, inc) <==> Level(seen, now) + inc > now + c.tolerance
  {
  }
}
