/** The `CL.THROTTLE` command: from its arguments to the five integers of its reply. */
module Command {
  import opened Prelude
  import opened Float
  import opened Rate
  import opened Gcra
  import opened Codec
  import opened Numerals
  import opened Loop
  import opened Stores
  import opened Limiter
  import opened Advice
  import opened RedisKeys
  import opened Replies

  datatype Arguments = Arguments(key: string, maxBurst: i64, count: i64, period: i64, quantity: i64)

  function Decimal(v: i64): string {
    if v < 0 then "-" + ToString(-(v as int)) else ToString(v)
  }

  /** Every 64-bit integer, written in decimal, is read back as itself. */
  lemma IntegerRoundTrip(v: i64)
    ensures ParseI64(Decimal(v)) == Some(v)
  {
    var n: nat := if v < 0 then -(v as int) else v;
    DigitsOfString(n);
    assert ("-" + ToString(n))[1..] == ToString(n);
  }

  function ParseInteger(arg: string): Result<i64> {
    match ParseI64(arg)
    case None => Err(NotAnInteger)
    case Some(n) => Ok(n)
  }

  /** The first argument is the command's own name; the quantity defaults to one. */
  function Parse(args: seq<string>): Result<Arguments> {
    if |args| != 5 && |args| != 6 then Err(Usage)
    else
      var b, n, p, q := ParseInteger(args[2]), ParseInteger(args[3]), ParseInteger(args[4]),
                        if |args| == 6 then ParseInteger(args[5]) else Ok(1);
      if b.Err? then Err(b.error)
      else if n.Err? then Err(n.error)
      else if p.Err? then Err(p.error)
      else if q.Err? then Err(q.error)
      else Ok(Arguments(args[1], b.value, n.value, p.value, q.value))
  }

  /** Whatever arguments a caller means, written out they are read as meant; a quantity of one need not be written. */
  lemma ArgumentsRoundTrip(name: string, a: Arguments)
    ensures var args := [name, a.key, Decimal(a.maxBurst), Decimal(a.count), Decimal(a.period)];
            && Parse(args + [Decimal(a.quantity)]) == Ok(a)
            && Parse(args) == Ok(a.(quantity := 1))
  {
    IntegerRoundTrip(a.maxBurst);
    IntegerRoundTrip(a.count);
    IntegerRoundTrip(a.period);
    IntegerRoundTrip(a.quantity);
  }

  ghost predicate IsInteger(s: string) {
    exists v: i64 :: WritesInt(s, v)
  }

  lemma IntegerIff(s: string)
    ensures IsInteger(s) <==> ParseI64(s).Some?
    ensures ParseI64(s).Some? ==> WritesInt(s, ParseI64(s).value)
  {
    if v: i64 :| WritesInt(s, v) {
      ParseI64Iff(s, v);
    }
    if ParseI64(s).Some? {
      ParseI64Iff(s, ParseI64(s).value);
    }
  }

  /** All that follows the key is integers. */
  ghost predicate IntegersGiven(args: seq<string>) {
    forall i | 2 <= i < |args| :: IsInteger(args[i])
  }

  lemma GivenIff(args: seq<string>)
    requires 5 <= |args| <= 6
    ensures IntegersGiven(args)
       <==> IsInteger(args[2]) && IsInteger(args[3]) && IsInteger(args[4]) && (|args| == 6 ==> IsInteger(args[5]))
  {
  }

  /** `a` is what the arguments say, in their order; a quantity that is not given is one. */
  ghost predicate Says(args: seq<string>, a: Arguments)
    requires 5 <= |args| <= 6
  {
    && a.key == args[1]
    && WritesInt(args[2], a.maxBurst) && WritesInt(args[3], a.count) && WritesInt(args[4], a.period)
    && if |args| == 6 then WritesInt(args[5], a.quantity) else a.quantity == 1
  }

  /** The arguments taken and refused, exactly. */
  lemma ParseIff(args: seq<string>)
    ensures Parse(args) == Err(Usage) <==> |args| != 5 && |args| != 6
    ensures Parse(args) == Err(NotAnInteger) <==> 5 <= |args| <= 6 && !IntegersGiven(args)
    ensures Parse(args).Ok? <==> 5 <= |args| <= 6 && IntegersGiven(args)
    ensures Parse(args).Ok? ==> Says(args, Parse(args).value)
  {
    if 5 <= |args| <= 6 {
      IntegerIff(args[2]);
      IntegerIff(args[3]);
      IntegerIff(args[4]);
      if |args| == 6 {
        IntegerIff(args[5]);
      }
      GivenIff(args);
    }
  }

  function LimitsOf(fl: Rounding, a: Arguments): Limits {
    New(Quota(a.maxBurst, PerPeriod(fl, a.count, a.period * 1_000_000_000)))
  }

  function Fields(fl: Rounding, limited: bool, r: Reply): seq<int> {
    [if limited then 1 else 0, r.limit, r.remaining, ReportedSeconds(fl, r.retryAfter), ReportedSeconds(fl, r.resetAfter)]
  }

  /** The reply made of the limiter's answer, and the keys it leaves. */
  function Answer(fl: Rounding, r: Result<(bool, Reply)>, after: Contents, keys: Keys): (Result<seq<int>>, Keys) {
    (if r.Ok? then Ok(Fields(fl, r.value.0, r.value.1)) else Err(r.error),
     if after.InRedis? then after.keys else keys)
  }

  /** What the command answers, and what it leaves of the keys. */
  function Ran(fl: Rounding, args: seq<string>, keys: Keys, env: seq<Moment>): (Result<seq<int>>, Keys)
    requires MAX_CAS_ATTEMPTS < |env|
  {
    var parsed := Parse(args);
    if parsed.Err? then (Err(parsed.error), keys)
    else
      var a := parsed.value;
      var (r, after) := Throttle(LimitsOf(fl, a), fl, a.key, a.quantity, InRedis(keys), env);
      Answer(fl, r, after, keys)
  }

  method ParseArguments(args: seq<string>) returns (res: Result<Arguments>)
    ensures res == Parse(args)
  {
    if |args| != 5 && |args| != 6 {
      return Err(Usage);
    }
    var key := args[1];
    var maxBurst := ParseInteger(args[2]);
    if maxBurst.Err? { return Err(maxBurst.error); }
    var count := ParseInteger(args[3]);
    if count.Err? { return Err(count.error); }
    var period := ParseInteger(args[4]);
    if period.Err? { return Err(period.error); }
    var quantity: Result<i64> := Ok(1);
    if |args| == 6 {
      quantity := ParseInteger(args[5]);
      if quantity.Err? { return Err(quantity.error); }
    }
    return Ok(Arguments(key, maxBurst.value, count.value, period.value, quantity.value));
  }

  method WholeSeconds(fl: Rounding, d: int) returns (seconds: int)
    ensures seconds == ReportedSeconds(fl, d)
  {
    seconds := AsSeconds(fl, d);
    if TruncDiv(TruncRem(d, 1_000_000_000), 1_000_000) > 0 {
      seconds := seconds + 1;
    }
  }

  method Run(store: RedisStore, args: seq<string>, fl: Rounding, env: seq<Moment>) returns (res: Result<seq<int>>)
    requires MAX_CAS_ATTEMPTS < |env|
    modifies store
    ensures (res, store.keys) == Ran(fl, args, old(store.keys), env)
  {
    var parsed := ParseArguments(args);
    if parsed.Err? {
      return Err(parsed.error);
    }
    var a := parsed.value;
    var rate := PerPeriod(fl, a.count, a.period * 1_000_000_000);
    var limiter := new RateLimiter(Redis(store), Quota(a.maxBurst, rate));
    var answer := limiter.RateLimit(a.key, a.quantity, fl, env);
    if answer.Err? {
      return Err(answer.error);
    }
    var (throttled, result) := answer.value;
    var retryAfter := WholeSeconds(fl, result.retryAfter);
    var resetAfter := WholeSeconds(fl, result.resetAfter);
    return Ok([if throttled then 1 else 0, result.limit, result.remaining, retryAfter, resetAfter]);
  }

  /** Arguments the doubles hold exactly, and whose products with the interval `t` stay within 64 bits. */
  predicate Moderate(a: Arguments, t: int) {
    && 0 < a.count < TWO53 && 0 < a.period * 1_000_000_000 < TWO53
    && 0 <= a.maxBurst && a.maxBurst + 1 < TWO63 && 0 <= a.quantity
    && t * (a.maxBurst + 1) < TWO63 && t * a.quantity < TWO63
  }

  lemma LimitsFor(fl: Rounding, a: Arguments, t: i64)
    requires PerPeriod(fl, a.count, a.period * 1_000_000_000) == t > 0 && Moderate(a, t)
    ensures LimitsOf(fl, a) == Limits(t, t * (a.maxBurst + 1), a.maxBurst + 1)
    ensures Increment(LimitsOf(fl, a), a.quantity) == t * a.quantity >= 0
  {
    NewIsRegular(Quota(a.maxBurst, t));
    IncrementExact(LimitsOf(fl, a), a.quantity);
  }

  /**
   What moderate arguments come to: an interval of exactly floor(period / count), which is zero
   just if that is less than a nanosecond; and otherwise a limit of max_burst + 1, a tolerance of
   so many intervals, and a charge of one interval for each unit asked for.
   */
  lemma ModerateLimits(fl: Rounding, a: Arguments, t: int)
    requires 0 < a.count && t == (a.period * 1_000_000_000) / a.count && Moderate(a, t)
    ensures LimitsOf(fl, a).interval == t
    ensures t == 0 <==> a.period * 1_000_000_000 < a.count
    ensures t > 0 ==> LimitsOf(fl, a) == Limits(t, t * (a.maxBurst + 1), a.maxBurst + 1)
    ensures t > 0 ==> Increment(LimitsOf(fl, a), a.quantity) == t * a.quantity >= 0
  {
    var ns := a.period * 1_000_000_000;
    PerPeriodExact(fl, a.count, ns);
    Division(ns, a.count);
    if t > 0 {
      LimitsFor(fl, a, PerPeriod(fl, a.count, ns));
    }
  }

  /**
   The command end to end, on arguments that parse and a readable key: a zero rate is refused and
   leaves the key alone; otherwise the command always answers, with the decision of the kernel on
   the value the key held, and leaves the key as that decision says.
   */
  lemma CommandDecides(fl: Rounding, args: seq<string>, keys: Keys, env: seq<Moment>)
    requires MAX_CAS_ATTEMPTS < |env| && Forward(env)
    requires Parse(args).Ok? && Readable(keys, Parse(args).value.key, env[0].now)
    ensures var a := Parse(args).value;
            var c := LimitsOf(fl, a);
            var inc := Increment(c, a.quantity);
            if c.interval == 0 then
              Ran(fl, args, keys, env) == (Err(ZeroRate), keys)
            else
              var (seen, m) := Decisive(c, a.key, inc, keys, env);
              var v := Judge(c, View(seen), m.now, inc);
              Ran(fl, args, keys, env)
                == (Ok([if v.limited then 1 else 0, c.limit, Finish(c, fl, v).remaining,
                        ReportedSeconds(fl, v.retryAfter), ReportedSeconds(fl, v.ttl)]),
                    if v.limited then keys else keys[a.key := Written(m.later, Proposal(c, inc, seen, m.now), v.ttl)])
  {
    var a := Parse(args).value;
    var c := LimitsOf(fl, a);
    if c.interval != 0 {
      ThrottleDecides(c, fl, a.key, a.quantity, keys, env);
    }
  }

  /**
   The command's errors, exactly: bad arguments, a zero rate, or a key that holds something else.
   Contention is not among them, and whichever it is the keys are as they were.
   */
  lemma CommandErrorsIff(fl: Rounding, args: seq<string>, keys: Keys, env: seq<Moment>)
    requires MAX_CAS_ATTEMPTS < |env| && Forward(env)
    ensures var (res, after) := Ran(fl, args, keys, env);
            var p := Parse(args);
            && (p.Ok? <==> 5 <= |args| <= 6 && IntegersGiven(args))
            && (res.Err? <==> p.Err? || LimitsOf(fl, p.value).interval == 0 || Garbled(keys, p.value.key, env[0].now))
            && (res.Err? ==> after == keys && res.error != FailedToUpdate)
  {
    ParseIff(args);
    if Parse(args).Ok? {
      var a := Parse(args).value;
      var c := LimitsOf(fl, a);
      ReadsNumber(keys, a.key, env[0].now);
      if c.interval != 0 && Readable(keys, a.key, env[0].now) {
        ThrottleDecides(c, fl, a.key, a.quantity, keys, env);
      }
    }
  }

  /**
   The fourth field of the reply, the seconds to wait, is -1 exactly when the action was allowed or can never be;
   otherwise it is a number of seconds, which is 0 for a wait below a millisecond.
   */
  lemma RetryField(c: Limits, fl: Rounding, seen: Option<int>, now: int, inc: int)
    requires Judge(c, seen, now, inc).retryAfter < LONGEST_WAIT
    ensures var v := Judge(c, seen, now, inc);
            var field := ReportedSeconds(fl, v.retryAfter);
            && (field == -1 <==> !v.limited || inc > c.tolerance)
            && (field != -1 ==> field >= 0 && (field == 0 <==> v.retryAfter < 1_000_000))
  {
    OneSecondNegative(fl);
    if Blocked(c, seen, now, inc) && inc <= c.tolerance {
      SecondsOfWait(fl, Judge(c, seen, now, inc).retryAfter);
    }
  }

  lemma SecondsOfWait(fl: Rounding, wait: int)
    requires 0 < wait < LONGEST_WAIT
    ensures ReportedSeconds(fl, wait) >= 0 && (ReportedSeconds(fl, wait) == 0 <==> wait < 1_000_000)
  {
    AsSecondsNear(fl, wait);
    if AsSeconds(fl, wait) != wait / 1_000_000_000 {
      FractionVisible(fl, wait);
    }
  }

  lemma OneSecondNegative(fl: Rounding)
    ensures ReportedSeconds(fl, NO_RETRY) == -1
  {
  }
}
