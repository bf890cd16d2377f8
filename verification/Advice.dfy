/**
 What a reply is worth to the caller: `retry_after`, `reset_after` and `remaining` measured
 against what the limiter would do with a further request.
 */
module Advice {
  import opened Prelude
  import opened Float
  import opened Gcra

  /**
   `retry_after` is exact. A blocked request that fits the limit passes at `now + retry_after`
   and at no earlier instant; one that gets -1 s never passes, whatever is stored.
   */
  lemma RetryAfterExact(c: Limits, seen: Option<int>, now: int, inc: int)
    requires Blocked(c, seen, now, inc)
    ensures var r := Judge(c, seen, now, inc).retryAfter;
            var kept := After(c, seen, now, inc);
            if inc <= c.tolerance then
              r > 0 && forall t :: !Blocked(c, kept, t, inc) <==> t >= now + r
            else
              r == NO_RETRY && forall s, t :: Blocked(c, s, t, inc)
  {
  }

  /** Blocked, and what is stored is already in the past: only a request above the limit is so. */
  predicate StaleBlock(c: Limits, seen: Option<int>, now: int, inc: int) {
    Blocked(c, seen, now, inc) && seen.Some? && seen.value < now
  }

  /**
   `reset_after` is exact: from the call on, the full limit passes just from `now + reset_after`
   on. It is negative exactly for a request above the limit at a key whose time is past.
   */
  lemma ResetAfterExact(c: Limits, seen: Option<int>, now: int, inc: int)
    requires Regular(c) && inc >= 0
    ensures var v := Judge(c, seen, now, inc);
            var kept := After(c, seen, now, inc);
            && (forall t | t >= now :: !Blocked(c, kept, t, c.interval * c.limit) <==> t >= now + v.ttl)
            && (v.ttl < 0 <==> StaleBlock(c, seen, now, inc))
            && (v.ttl < 0 <==> inc > c.tolerance && seen.Some? && seen.value < now)
  {
  }

  /** The largest quantity a further call at `now` can be admitted for. */
  function Capacity(c: Limits, s: Option<int>, now: int): int
    requires c.interval > 0
  {
    (c.tolerance - (Level(s, now) - now)) / c.interval
  }

  lemma FitsParts(q: int, t: int, k: int, r: int)
    requires 0 <= r < t
    ensures q * t <= k * t + r <==> q <= k
  {
    if q <= k {
      NonNegative(k - q, t);
    } else {
      NonNegative(q - k - 1, t);
    }
  }

  lemma FitsIff(q: int, t: int, room: int)
    requires t > 0
    ensures q * t <= room <==> q <= room / t
  {
    var k, r := room / t, room % t;
    assert room == k * t + r;
    FitsParts(q, t, k, r);
  }

  lemma CapacityIsLargest(c: Limits, s: Option<int>, now: int, q: int)
    requires c.interval > 0
    ensures !Blocked(c, s, now, c.interval * q) <==> q <= Capacity(c, s, now)
  {
    Kernel(c, s, now, c.interval * q);
    FitsIff(q, c.interval, c.tolerance - (Level(s, now) - now));
  }

  lemma CancelFactor(x: int, y: int, d: int)
    requires d > 0 && x * d < (y + 1) * d
    ensures x <= y
  {
  }

  /** `m` whole units of `u` in `t`, `a` in `next`: dividing the counts does not lose a multiple of `t`. */
  lemma ShareAtLeast(k: int, t: int, a: int, m: int, r: int, u: int)
    requires u > 0 && m > 0 && k >= 0
    requires m * u <= t && k * t < (a + 1) * u && a < (r + 1) * m
    ensures k <= r
  {
    assert k * (t - m * u) >= 0;
    assert k * (m * u) == (k * m) * u;
    CancelFactor(k * m, a, u);
    CancelFactor(k, r, m);
  }

  /** Nor does it gain more than the truncation of `t` can account for. */
  lemma ShareAtMost(k: int, t: int, a: int, m: int, r: int, u: int)
    requires u > 0 && m > 0 && k >= 0
    requires t <= (m + 1) * u && a * u < (k + 1) * t && r * m <= a
    ensures r <= k + 1 + k / m
  {
    var b := (k + 1) * (m + 1);
    assert (k + 1) * ((m + 1) * u - t) >= 0;
    assert (k + 1) * ((m + 1) * u) == b * u;
    CancelFactor(a, b - 1, u);
    assert b - 1 == (k + 1) * m + k;
    assert (r - k - 1) * m == r * m - (k + 1) * m;
    FitsIff(r - k - 1, m, k);
  }

  lemma ShareExact(k: int, a: int, m: int, r: int, u: int)
    requires u > 0 && m > 0
    requires a * u < (k + 1) * (m * u) && r * m <= a
    ensures r <= k
  {
  }

  /** The quotient of the two microsecond counts against the quotient of the nanosecond counts. */
  lemma MicrosecondQuotient(next: int, t: int)
    requires next >= 0 && t >= 1_000
    ensures var k, m := next / t, t / 1_000;
            && m > 0
            && 0 <= k <= (next / 1_000) / m <= k + 1 + k / m
            && (t % 1_000 == 0 ==> (next / 1_000) / m == k)
  {
    var u := 1_000;
    var k, m, a := next / t, t / u, next / u;
    Division(next, t);
    Division(a, m);
    ShareAtLeast(k, t, a, m, a / m, u);
    ShareAtMost(k, t, a, m, a / m, u);
    if t % u == 0 {
      assert t == m * u;
      ShareExact(k, a, m, a / m, u);
    }
  }

  /** Intervals and credits the doubles hold exactly, some 285 years of microseconds. */
  predicate Exact(c: Limits, v: Verdict) {
    c.tolerance < TWO53 * 1_000 && c.tolerance - v.ttl < TWO53 * 1_000
  }

  lemma ShareOfWholes(fl: Rounding, next: int, t: int)
    requires 0 <= next < TWO53 * 1_000 && 1_000 <= t < TWO53 * 1_000
    ensures WholeShare(fl, next, t) == (next / 1_000) / (t / 1_000)
  {
    QuotientExact(fl, next / 1_000, t / 1_000);
  }

  lemma ReplyShare(c: Limits, fl: Rounding, v: Verdict)
    requires Regular(c) && c.interval >= 1_000 && Exact(c, v) && v.ttl <= c.tolerance
    ensures Finish(c, fl, v).remaining == ((c.tolerance - v.ttl) / 1_000) / (c.interval / 1_000)
  {
    IntervalWithinTolerance(c);
    ShareOfWholes(fl, c.tolerance - v.ttl, c.interval);
  }

  lemma CreditAfter(c: Limits, seen: Option<int>, now: int, inc: int)
    requires Regular(c) && inc >= 0 && Within(seen, now, c.tolerance)
    requires !StaleBlock(c, seen, now, inc)
    ensures var v := Judge(c, seen, now, inc);
            && 0 <= v.ttl <= c.tolerance
            && Level(After(c, seen, now, inc), now) - now == v.ttl
  {
  }

  /**
   `remaining`, unless a request above the limit met a key whose time is past: never less than the
   largest quantity a further call at the same instant is admitted for, and above it only as far
   as truncating the interval to microseconds makes it. On whole microseconds it is that quantity.
   */
  lemma RemainingBounds(c: Limits, fl: Rounding, seen: Option<int>, now: int, inc: int)
    requires Regular(c) && inc >= 0 && Within(seen, now, c.tolerance)
    requires c.interval >= 1_000 && c.tolerance < TWO53 * 1_000
    requires !StaleBlock(c, seen, now, inc)
    ensures var k := Capacity(c, After(c, seen, now, inc), now);
            var remaining := Finish(c, fl, Judge(c, seen, now, inc)).remaining;
            && 0 <= k <= c.limit
            && k <= remaining <= k + 1 + k / (c.interval / 1_000)
            && (c.interval % 1_000 == 0 ==> remaining == k)
  {
    var v := Judge(c, seen, now, inc);
    var next := c.tolerance - v.ttl;
    CreditAfter(c, seen, now, inc);
    ReplyShare(c, fl, v);
    MicrosecondQuotient(next, c.interval);
    RoomWithinLimit(c, next);
  }

  lemma RoomWithinLimit(c: Limits, next: int)
    requires Regular(c) && next <= c.tolerance
    ensures next / c.interval <= c.limit
  {
  }

  lemma WholeLimits(limit: int, t: int, past: int)
    requires t > 0
    ensures (limit * t + past) / t == limit + past / t
  {
    var q, r := past / t, past % t;
    assert past == q * t + r;
    assert limit * t + past == (limit + q) * t + r;
    FitsIff(limit + q, t, limit * t + past);
    FitsIff(limit + q + 1, t, limit * t + past);
    assert (limit + q + 1) * t == (limit + q) * t + t;
  }

  /** A full bucket and `past` more, counted in microseconds. */
  lemma StaleCredit(room: int, limit: int, t: int, past: int)
    requires limit >= 1 && t >= 1_000 && past >= 0 && room == limit * t + past
    ensures var credit, m := limit + past / t, t / 1_000;
            && m > 0
            && credit <= (room / 1_000) / m <= credit + 1 + credit / m
            && (t % 1_000 == 0 ==> (room / 1_000) / m == credit)
  {
    NonNegative(limit, t);
    MicrosecondQuotient(room, t);
    WholeLimits(limit, t, past);
  }

  lemma FullCapacity(room: int, limit: int, t: int)
    requires t > 0 && room == limit * t
    ensures room / t == limit
  {
    WholeLimits(limit, t, 0);
    Division(0, t);
  }

  lemma StaleCapacity(c: Limits, seen: Option<int>, now: int, inc: int)
    requires Regular(c) && StaleBlock(c, seen, now, inc)
    ensures Capacity(c, After(c, seen, now, inc), now) == c.limit
  {
    assert Level(seen, now) == now;
    FullCapacity(c.tolerance, c.limit, c.interval);
  }

  /**
   And when one did: the bucket is full, but the reply counts the time since the key ran out as
   further credit, with the same excess from truncation. On whole microseconds it is the true
   quantity just if less than one interval has passed.
   */
  lemma RemainingOnStaleBlock(c: Limits, fl: Rounding, seen: Option<int>, now: int, inc: int)
    requires Regular(c) && StaleBlock(c, seen, now, inc)
    requires c.interval >= 1_000 && Exact(c, Judge(c, seen, now, inc))
    ensures Capacity(c, After(c, seen, now, inc), now) == c.limit
    ensures var remaining := Finish(c, fl, Judge(c, seen, now, inc)).remaining;
            var credit := c.limit + (now - seen.value) / c.interval;
            && credit <= remaining <= credit + 1 + credit / (c.interval / 1_000)
            && (c.interval % 1_000 == 0 ==> remaining == credit)
            && (c.interval % 1_000 == 0 ==> (remaining == c.limit <==> now - seen.value < c.interval))
  {
    var v := Judge(c, seen, now, inc);
    StaleCapacity(c, seen, now, inc);
    IntervalWithinTolerance(c);
    ReplyShare(c, fl, v);
    StaleCredit(c.tolerance - v.ttl, c.limit, c.interval, now - seen.value);
    Division(now - seen.value, c.interval);
  }

  /**
   Overdrawn, as under limits lowered since the key was written: `remaining` is 0, unless the
   interval is no whole number of microseconds and the overdraft comes within one of it; then -1.
   */
  lemma RemainingOverdrawn(c: Limits, fl: Rounding, v: Verdict)
    requires 1_000 <= c.interval < TWO53 * 1_000 && v.ttl > c.tolerance
    ensures var over := v.ttl - c.tolerance;
            Finish(c, fl, v).remaining
              == if over < c.interval && over / 1_000 == c.interval / 1_000 then -1 else 0
  {
    var over := v.ttl - c.tolerance;
    if over < c.interval {
      var a, m := over / 1_000, c.interval / 1_000;
      QuotientExact(fl, -a, m);
      Division(a, m);
      FitsIff(1, m, a);
      FitsIff(2, m, a);
    }
  }

  /** Above a million requests a second the interval has no whole microsecond, and the first microsecond of credit reads as the largest integer. */
  lemma RemainingSaturates(c: Limits, fl: Rounding, v: Verdict)
    requires 0 < c.interval < 1_000
    ensures var next := c.tolerance - v.ttl;
            Finish(c, fl, v).remaining == if next < 1_000 then 0 else TWO63 - 1
  {
  }

  /** A duration as `as_seconds_f64` makes it, cut to an integer. */
  function AsSeconds(fl: Rounding, d: int): i64 {
    ToI64(fl(fl(TruncDiv(d, 1_000_000_000) as real) + fl(TruncRem(d, 1_000_000_000) as real / 1_000_000_000.0)))
  }

  /** The whole seconds the command reports for a duration. */
  function ReportedSeconds(fl: Rounding, d: int): int {
    AsSeconds(fl, d) + if TruncDiv(TruncRem(d, 1_000_000_000), 1_000_000) > 0 then 1 else 0
  }

  lemma FractionRounds(fl: Rounding, n: int)
    requires 0 <= n < 1_000_000_000
    ensures var x := n as real / 1_000_000_000.0;
            && 0.0 <= fl(x) <= 1.0
            && fl(x) <= x + 1.0 / 9007199254740992.0
            && (n == 0 ==> fl(x) == 0.0)
            && (n > 0 ==> fl(x) >= 0.0000000009)
  {
    var x := n as real / 1_000_000_000.0;
    OfInt(fl, 0);
    OfInt(fl, 1);
    assert fl(0.0) <= fl(x) <= fl(1.0);
    if n > 0 {
      assert Normal(x);
      assert Abs(fl(x) - x) * 9007199254740992.0 <= Abs(x);
    }
  }

  /** 2^52 seconds, longer than between any two times the clock and the store can hold. */
  const LONGEST_WAIT: int := 0x10_0000_0000_0000 * 1_000_000_000

  /** The cut value is the true number of seconds, or the next one when the fraction rounds up to it. */
  lemma AsSecondsNear(fl: Rounding, d: int)
    requires 0 <= d < LONGEST_WAIT
    ensures d / 1_000_000_000 <= AsSeconds(fl, d) <= d / 1_000_000_000 + 1
    ensures d % 1_000_000_000 == 0 ==> AsSeconds(fl, d) == d / 1_000_000_000
  {
    var s, n := d / 1_000_000_000, d % 1_000_000_000;
    var y := s as real + fl(n as real / 1_000_000_000.0);
    FractionRounds(fl, n);
    OfInt(fl, s);
    OfInt(fl, s + 1);
    assert fl(s as real) <= fl(y) <= fl((s + 1) as real);
  }

  /** Below nine million seconds, some 104 days, the doubles never round a fraction up to a second. */
  const SAFE_SECONDS: int := 9_000_000

  lemma AsSecondsExact(fl: Rounding, d: int)
    requires 0 <= d < SAFE_SECONDS * 1_000_000_000
    ensures AsSeconds(fl, d) == d / 1_000_000_000
  {
    var s, n := d / 1_000_000_000, d % 1_000_000_000;
    var y := s as real + fl(n as real / 1_000_000_000.0);
    FractionRounds(fl, n);
    OfInt(fl, s);
    KeepsFloor(fl, y, s, 1.0 / 1_000_000_000.0 - 1.0 / 9007199254740992.0);
  }

  lemma FractionRoundsBelow(fl: Rounding, n: int)
    requires 0 <= n < 1_000_000_000
    ensures -1.0 <= fl(-(n as real / 1_000_000_000.0)) <= 0.0
    ensures n == 0 ==> fl(-(n as real / 1_000_000_000.0)) == 0.0
  {
    OfInt(fl, 0);
    OfInt(fl, -1);
    var x := -(n as real / 1_000_000_000.0);
    assert fl(-1.0) <= fl(x) <= fl(0.0);
  }

  lemma AsSecondsBelow(fl: Rounding, s: int, n: int)
    requires 0 <= s < 0x10_0000_0000_0000 && 0 <= n < 1_000_000_000
    ensures var v := ToI64(fl(fl((-s) as real) + fl(-(n as real / 1_000_000_000.0))));
            -s - 1 <= v <= -s && (n == 0 ==> v == -s)
  {
    var y := (-s) as real + fl(-(n as real / 1_000_000_000.0));
    FractionRoundsBelow(fl, n);
    OfInt(fl, -s);
    OfInt(fl, -s - 1);
    assert fl((-s - 1) as real) <= fl(y) <= fl((-s) as real);
  }

  /** A negative duration is cut toward zero, unless the doubles round its fraction to the next second. */
  lemma NegativeSeconds(fl: Rounding, d: int)
    requires -LONGEST_WAIT < d < 0
    ensures d - 1_000_000_000 < ReportedSeconds(fl, d) * 1_000_000_000 < d + 1_000_000_000
    ensures ReportedSeconds(fl, d) <= 0
  {
    var s, n := (-d) / 1_000_000_000, (-d) % 1_000_000_000;
    AsSecondsBelow(fl, s, n);
    Negated(n as real, 1_000_000_000.0);
    assert AsSeconds(fl, d) == ToI64(fl(fl((-s) as real) + fl(-(n as real / 1_000_000_000.0))));
  }

  /** Otherwise the reported seconds are at most a millisecond short of the duration, and less than two seconds beyond it. */
  lemma SecondsNear(fl: Rounding, d: int)
    requires 0 <= d < LONGEST_WAIT
    ensures var r := ReportedSeconds(fl, d);
            && r >= 0
            && (r - 2) * 1_000_000_000 < d <= r * 1_000_000_000 + 1_000_000
            && (d < SAFE_SECONDS * 1_000_000_000 ==> (r - 1) * 1_000_000_000 < d)
  {
    AsSecondsNear(fl, d);
    if AsSeconds(fl, d) != d / 1_000_000_000 {
      FractionVisible(fl, d);
    }
    if d < SAFE_SECONDS * 1_000_000_000 {
      AsSecondsExact(fl, d);
    }
  }

  /**
   The advice in whole seconds: for a blocked request that fits the limit, waiting the reported
   seconds and one millisecond always suffices. One second less never does, if and only if the
   doubles did not round the wait up to the next second.
   */
  lemma WholeSecondAdvice(c: Limits, fl: Rounding, seen: Option<int>, now: int, inc: int)
    requires Blocked(c, seen, now, inc) && inc <= c.tolerance
    requires Judge(c, seen, now, inc).retryAfter < LONGEST_WAIT
    ensures var wait := Judge(c, seen, now, inc).retryAfter;
            var r := ReportedSeconds(fl, wait);
            && !Blocked(c, seen, now + r * 1_000_000_000 + 1_000_000, inc)
            && (AsSeconds(fl, wait) == wait / 1_000_000_000 <==> Blocked(c, seen, now + (r - 1) * 1_000_000_000, inc))
  {
    var wait := Judge(c, seen, now, inc).retryAfter;
    var r := ReportedSeconds(fl, wait);
    RetryAfterExact(c, seen, now, inc);
    AsSecondsNear(fl, wait);
    assert !Blocked(c, seen, now + r * 1_000_000_000 + 1_000_000, inc) <==> r * 1_000_000_000 + 1_000_000 >= wait;
    assert !Blocked(c, seen, now + (r - 1) * 1_000_000_000, inc) <==> (r - 1) * 1_000_000_000 >= wait;
    if AsSeconds(fl, wait) != wait / 1_000_000_000 {
      FractionVisible(fl, wait);
    }
  }

  /** A fraction the doubles round up to a second is at least a millisecond long. */
  lemma FractionVisible(fl: Rounding, d: int)
    requires 0 <= d < LONGEST_WAIT && AsSeconds(fl, d) != d / 1_000_000_000
    ensures d % 1_000_000_000 >= 1_000_000
  {
    var s, n := d / 1_000_000_000, d % 1_000_000_000;
    if n < 1_000_000 {
      var y := s as real + fl(n as real / 1_000_000_000.0);
      FractionRounds(fl, n);
      OfInt(fl, s);
      KeepsFloor(fl, y, s, 0.99);
    }
  }

  /**
   Waiting exactly the reported seconds, which the rounding is there to make safe, suffices if and
   only if the wait is whole seconds or its fraction shows in milliseconds.
   */
  lemma ReportedSecondsSuffice(c: Limits, fl: Rounding, seen: Option<int>, now: int, inc: int)
    requires Blocked(c, seen, now, inc) && inc <= c.tolerance
    requires Judge(c, seen, now, inc).retryAfter < LONGEST_WAIT
    ensures var wait := Judge(c, seen, now, inc).retryAfter;
            var fraction, told := wait % 1_000_000_000, ReportedSeconds(fl, wait) * 1_000_000_000;
            !Blocked(c, seen, now + told, inc) <==> fraction == 0 || fraction >= 1_000_000
  {
    var wait := Judge(c, seen, now, inc).retryAfter;
    var r := ReportedSeconds(fl, wait);
    RetryAfterExact(c, seen, now, inc);
    AsSecondsNear(fl, wait);
    if AsSeconds(fl, wait) != wait / 1_000_000_000 {
      FractionVisible(fl, wait);
    }
    assert !Blocked(c, seen, now + r * 1_000_000_000, inc) <==> r * 1_000_000_000 >= wait;
  }

  /** One request a second, the last one half a millisecond less than the wait: told 1 s, still blocked then. */
  lemma ReportedSecondTooEarly(fl: Rounding)
    ensures var c, seen, now := Limits(1_000_000_000, 1_000_000_000, 1), Some(1_000_000_000 + 500_000), 0;
            var wait := Judge(c, seen, now, 1_000_000_000).retryAfter;
            && Blocked(c, seen, now, 1_000_000_000)
            && ReportedSeconds(fl, wait) == 1
            && Blocked(c, seen, now + 1_000_000_000, 1_000_000_000)
  {
    AsSecondsExact(fl, 1_000_000_000 + 500_000);
  }

  /**
   For longer waits the other half can fail: of a wait one nanosecond short of 2^24 + 1 s the nearest
   double is the whole second, and a rounding that takes it makes the reported wait a second too long.
   */
  lemma LongWaitOverstated(fl: Rounding)
    requires fl(16_777_216.0 + fl(0.999_999_999)) == 16_777_217.0
    ensures var wait := 16_777_217 * 1_000_000_000 - 1;
            var c, seen := Limits(wait, wait, 1), Some(wait);
            && Judge(c, seen, 0, wait).retryAfter == wait
            && ReportedSeconds(fl, wait) == 16_777_218
            && !Blocked(c, seen, (16_777_218 - 1) * 1_000_000_000, wait)
  {
    OfInt(fl, 16_777_216);
    assert 999_999_999 as real / 1_000_000_000.0 == 0.999_999_999;
  }

  /** A rounding that differs from the identity only just below 2^24 + 1, by less than half a unit in the last place. */
  function UpToSecond(x: real): real {
    if 16_777_216.999_999_998_2 <= x <= 16_777_217.0 then 16_777_217.0 else x
  }

  lemma UpToSecondRounds()
    ensures IsRounding(UpToSecond)
    ensures UpToSecond(16_777_216.0 + UpToSecond(0.999_999_999)) == 16_777_217.0
  {
  }
}
