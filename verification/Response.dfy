/** What a caller of `CL.THROTTLE` gets back, element by element, and what it leaves of the keys. */
module Response {
  import opened Prelude
  import opened Float
  import opened Rate
  import opened Gcra
  import opened Codec
  import opened Loop
  import opened Stores
  import opened Limiter
  import opened Advice
  import opened Replies
  import opened Command

  /** Bad arguments are refused before the keys are looked at. */
  lemma BadArgumentsRefused(fl: Rounding, args: seq<string>, keys: Keys, env: seq<Moment>)
    requires MAX_CAS_ATTEMPTS < |env|
    ensures |args| != 5 && |args| != 6 ==> Ran(fl, args, keys, env) == (Err(Usage), keys)
    ensures 5 <= |args| <= 6 && !IntegersGiven(args)
        ==> Ran(fl, args, keys, env) == (Err(NotAnInteger), keys)
  {
    ParseIff(args);
  }

  // ---- Zero rates -----------------------------------------------------------------------------

  /** No actions, no time for them, or more of them than nanoseconds. */
  predicate ZeroRated(a: Arguments) {
    a.count == 0 || a.period == 0 || a.period * 1_000_000_000 < a.count
  }

  lemma ZeroIntervalIff(fl: Rounding, a: Arguments)
    requires 0 <= a.count < TWO53 && 0 <= a.period * 1_000_000_000 < TWO53
    ensures LimitsOf(fl, a).interval == 0 <==> ZeroRated(a)
  {
    if a.count == 0 || a.period == 0 {
      PerPeriodZero(fl, a.count, a.period * 1_000_000_000);
    } else {
      PerPeriodExact(fl, a.count, a.period * 1_000_000_000);
    }
  }

  /** Whatever the other argument and the key. */
  lemma NothingIsZeroRate(fl: Rounding, args: seq<string>, keys: Keys, env: seq<Moment>)
    requires MAX_CAS_ATTEMPTS < |env| && Parse(args).Ok?
    requires Parse(args).value.count == 0 || Parse(args).value.period == 0
    ensures Ran(fl, args, keys, env) == (Err(ZeroRate), keys)
  {
    PerPeriodZero(fl, Parse(args).value.count, Parse(args).value.period * 1_000_000_000);
  }

  /** The refusal of a zero rate, exactly. */
  lemma ZeroRateIff(fl: Rounding, args: seq<string>, keys: Keys, env: seq<Moment>)
    requires MAX_CAS_ATTEMPTS < |env| && Forward(env) && Parse(args).Ok?
    requires var a := Parse(args).value; 0 <= a.count < TWO53 && 0 <= a.period * 1_000_000_000 < TWO53
    ensures Ran(fl, args, keys, env).0 == Err(ZeroRate) <==> ZeroRated(Parse(args).value)
    ensures ZeroRated(Parse(args).value) ==> Ran(fl, args, keys, env).1 == keys
  {
    var a := Parse(args).value;
    var c := LimitsOf(fl, a);
    ZeroIntervalIff(fl, a);
    RanThrottles(fl, args, keys, env);
    if !ZeroRated(a) {
      if Readable(keys, a.key, env[0].now) {
        ThrottleDecides(c, fl, a.key, a.quantity, keys, env);
      } else {
        UnreadableKey(c, a.key, Increment(c, a.quantity), keys, env);
      }
    }
  }

  // ---- The reply ------------------------------------------------------------------------------

  /**
   Seconds until the same request passes, for one blocked that can fit: with a millisecond more it
   does, with two seconds less it does not, nor with one less if the wait is below 104 days.
   */
  ghost predicate RetryShown(c: Limits, seen: Option<int>, now: int, inc: int, seconds: int) {
    if Blocked(c, seen, now, inc) && inc <= c.tolerance then
      && seconds >= 0
      && !Blocked(c, seen, now + seconds * 1_000_000_000 + 1_000_000, inc)
      && Blocked(c, seen, now + (seconds - 2) * 1_000_000_000, inc)
      && (Within(seen, now, 104 * 86_400 * 1_000_000_000) ==> Blocked(c, seen, now + (seconds - 1) * 1_000_000_000, inc))
    else
      seconds == -1
  }

  /** Seconds until the time stored, and so until the full limit passes; rounded in the same way, or cut if it is past. */
  ghost predicate ResetShown(c: Limits, kept: Option<int>, now: int, seconds: int) {
    var reset := if kept.Some? then kept.value - now else 0;
    if reset >= 0 then
      && !Blocked(c, kept, now + seconds * 1_000_000_000 + 1_000_000, c.interval * c.limit)
      && (seconds - 2) * 1_000_000_000 < reset
      && (reset <= 104 * 86_400 * 1_000_000_000 ==> (seconds - 1) * 1_000_000_000 < reset)
    else
      reset - 1_000_000_000 < seconds * 1_000_000_000 < reset + 1_000_000_000
  }

  lemma RetrySeconds(c: Limits, fl: Rounding, seen: Option<int>, now: int, inc: int, retryAfter: int)
    requires RetryTold(c, seen, now, inc, retryAfter) && retryAfter < LONGEST_WAIT
    ensures RetryShown(c, seen, now, inc, ReportedSeconds(fl, retryAfter))
  {
    OneSecondNegative(fl);
    if Blocked(c, seen, now, inc) && inc <= c.tolerance {
      SecondsNear(fl, retryAfter);
      WaitIsShort(c, seen, now, inc, retryAfter);
    }
  }

  lemma WaitIsShort(c: Limits, seen: Option<int>, now: int, inc: int, retryAfter: int)
    requires RetryTold(c, seen, now, inc, retryAfter) && Blocked(c, seen, now, inc) && inc <= c.tolerance
    ensures seen.Some? && now + retryAfter <= seen.value
  {
    assert !Blocked(c, seen, seen.value, inc);
  }

  lemma ResetSeconds(c: Limits, fl: Rounding, kept: Option<int>, now: int, resetAfter: int)
    requires ResetTold(c, kept, now, resetAfter) && -LONGEST_WAIT < resetAfter < LONGEST_WAIT
    ensures ResetShown(c, kept, now, ReportedSeconds(fl, resetAfter))
  {
    if resetAfter >= 0 {
      SecondsNear(fl, resetAfter);
    } else {
      NegativeSeconds(fl, resetAfter);
    }
  }

  /** The five integers, against the kernel: the decision, the limit, what remains, and the two waits. */
  ghost predicate Shows(c: Limits, seen: Option<int>, now: int, inc: int, reply: seq<int>) {
    var limited := Blocked(c, seen, now, inc);
    var kept := Leaving(seen, now, inc, limited);
    && |reply| == 5
    && reply[0] == (if limited then 1 else 0)
    && reply[1] == c.limit
    && (Countable(c, seen, now, inc) ==> RemainingTold(c, kept, now, reply[2]))
    && (InDoubles(c, kept, now) ==> RemainingExactly(c, kept, now, reply[2]))
    && RetryShown(c, seen, now, inc, reply[3])
    && ResetShown(c, kept, now, reply[4])
  }

  lemma ReplyShows(c: Limits, seen: Option<int>, now: int, inc: int, limited: bool, r: Reply, retry: int, reset: int)
    requires Truthful(c, seen, now, inc, limited, r)
    requires RetryShown(c, seen, now, inc, retry) && ResetShown(c, Leaving(seen, now, inc, limited), now, reset)
    ensures Shows(c, seen, now, inc, [if limited then 1 else 0, r.limit, r.remaining, retry, reset])
  {
  }

  /** Between times the store can hold and a clock in range there is no wait too long for the doubles. */
  lemma WaitsInRange(c: Limits, seen: Option<int>, now: int, inc: int, limited: bool, r: Reply)
    requires Truthful(c, seen, now, inc, limited, r) && 0 <= now < TWO64
    requires seen.Some? ==> 0 <= seen.value < TWO64
    requires !limited ==> 0 <= Level(seen, now) + inc < TWO64
    ensures r.retryAfter < LONGEST_WAIT && -LONGEST_WAIT < r.resetAfter < LONGEST_WAIT
  {
    if Blocked(c, seen, now, inc) && inc <= c.tolerance {
      WaitIsShort(c, seen, now, inc, r.retryAfter);
    }
  }

  lemma FieldsShow(c: Limits, fl: Rounding, seen: Option<int>, now: int, inc: int, limited: bool, r: Reply)
    requires Truthful(c, seen, now, inc, limited, r) && 0 <= now < TWO64
    requires seen.Some? ==> 0 <= seen.value < TWO64
    requires !limited ==> 0 <= Level(seen, now) + inc < TWO64
    ensures Shows(c, seen, now, inc, Fields(fl, limited, r))
  {
    WaitsInRange(c, seen, now, inc, limited, r);
    RetrySeconds(c, fl, seen, now, inc, r.retryAfter);
    ResetSeconds(c, fl, Leaving(seen, now, inc, limited), now, r.resetAfter);
    ReplyShows(c, seen, now, inc, limited, r, ReportedSeconds(fl, r.retryAfter), ReportedSeconds(fl, r.resetAfter));
  }

  /** The limits that moderate arguments ask for, at an interval of `t`. */
  function Asked(a: Arguments, t: int): Limits
    requires -TWO63 <= a.maxBurst < TWO63
  {
    Limits(t, t * (a.maxBurst + 1), a.maxBurst + 1)
  }

  lemma AskedFor(fl: Rounding, a: Arguments, t: int)
    requires 0 < a.count && t == (a.period * 1_000_000_000) / a.count > 0 && Moderate(a, t)
    ensures LimitsOf(fl, a) == Asked(a, t) && Regular(Asked(a, t)) && Sized(Asked(a, t), a.quantity)
  {
    ModerateLimits(fl, a, t);
    Division(a.period * 1_000_000_000, a.count);
  }

  /** The reply is true of what was found under the key, and the keys are left as its first element says. */
  ghost predicate Answers(c: Limits, key: string, inc: int, seen: Option<u64>, m: Moment, keys: Keys, reply: seq<int>, after: Keys) {
    && Shows(c, View(seen), m.now, inc, reply)
    && LeavesKeys(keys, after, key, reply[0] == 1, Level(View(seen), m.now) + inc, m)
  }

  lemma ReplyAnswers(c: Limits, fl: Rounding, key: string, inc: int, seen: Option<u64>, m: Moment, keys: Keys,
                     limited: bool, r: Reply, after: Keys)
    requires Replied(c, key, inc, seen, m, keys, limited, r, after)
    ensures Answers(c, key, inc, seen, m, keys, Fields(fl, limited, r), after)
  {
    ViewIsIdentity(seen);
    FieldsShow(c, fl, View(seen), m.now, inc, limited, r);
  }

  lemma RanThrottles(fl: Rounding, args: seq<string>, keys: Keys, env: seq<Moment>)
    requires MAX_CAS_ATTEMPTS < |env| && Parse(args).Ok?
    ensures var a := Parse(args).value;
            var (r, after) := Throttle(LimitsOf(fl, a), fl, a.key, a.quantity, InRedis(keys), env);
            Ran(fl, args, keys, env) == Answer(fl, r, after, keys)
  {
  }

  /**
   The command, whole: for moderate arguments and a readable key it always answers, with five
   integers that are true of what it found under the key; and it leaves the keys alone if the first
   of them is 1, or the time asked for under the key, for as long as it is to come, if that is 0.
   */
  lemma CommandReply(fl: Rounding, args: seq<string>, keys: Keys, env: seq<Moment>, t: int)
    requires MAX_CAS_ATTEMPTS < |env| && Forward(env)
    requires Parse(args).Ok? && Readable(keys, Parse(args).value.key, env[0].now)
    requires var a := Parse(args).value;
             && 0 < a.count && t == (a.period * 1_000_000_000) / a.count > 0 && Moderate(a, t)
             && InRange(Asked(a, t), env[0].now) && InRange(Asked(a, t), env[1].now)
    ensures var a := Parse(args).value;
            var (seen, m) := Decisive(Asked(a, t), a.key, t * a.quantity, keys, env);
            var (res, after) := Ran(fl, args, keys, env);
            res.Ok? && Answers(Asked(a, t), a.key, t * a.quantity, seen, m, keys, res.value, after)
  {
    var a := Parse(args).value;
    var c, inc := Asked(a, t), t * a.quantity;
    AskedFor(fl, a, t);
    RedisReply(c, fl, a.key, a.quantity, inc, keys, env);
    var (seen, m) := Decisive(c, a.key, inc, keys, env);
    var (res, after) := Throttle(c, fl, a.key, a.quantity, InRedis(keys), env);
    ReplyAnswers(c, fl, a.key, inc, seen, m, keys, res.value.0, res.value.1, after.keys);
    RanThrottles(fl, args, keys, env);
  }
}
