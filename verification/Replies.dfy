/** What the limiter replies, field by field, against what it would do with a further request; over either store. */
module Replies {
  import opened Prelude
  import opened Float
  import opened Gcra
  import opened Codec
  import opened Loop
  import opened Stores
  import opened Limiter
  import opened Advice
  import opened RedisKeys

  /** When the same request would pass, for one that was blocked and can fit; -1 s otherwise. */
  ghost predicate RetryTold(c: Limits, seen: Option<int>, now: int, inc: int, retryAfter: int) {
    if Blocked(c, seen, now, inc) && inc <= c.tolerance then
      retryAfter > 0 && forall t :: !Blocked(c, seen, t, inc) <==> t >= now + retryAfter
    else
      retryAfter == -1_000_000_000
  }

  /** When the full limit would pass with `kept` stored; that is, when the time stored comes. */
  ghost predicate ResetTold(c: Limits, kept: Option<int>, now: int, resetAfter: int) {
    && (forall t | t >= now :: !Blocked(c, kept, t, c.interval * c.limit) <==> t >= now + resetAfter)
    && now + resetAfter == if kept.Some? then kept.value else now
  }

  /** The largest quantity that would pass at once, as nearly as whole microseconds tell it. */
  ghost predicate RemainingTold(c: Limits, kept: Option<int>, now: int, remaining: int)
    requires c.interval >= 1_000
  {
    var k := Capacity(c, kept, now);
    && k <= remaining <= k + 1 + k / (c.interval / 1_000)
    && (c.interval % 1_000 == 0 ==> remaining == k)
  }

  /** And exactly, in whole microseconds of the credit left and of the interval, whatever was found. */
  ghost predicate RemainingExactly(c: Limits, kept: Option<int>, now: int, remaining: int)
    requires c.interval > 0
  {
    var credit := c.tolerance - if kept.Some? then kept.value - now else 0;
    var m := c.interval / 1_000;
    remaining ==
      if m == 0 then (if credit < 1_000 then 0 else TWO63 - 1)
      else if credit >= 0 then (credit / 1_000) / m
      else if credit > -c.interval then -(((-credit) / 1_000) / m)
      else 0
  }

  /** Intervals and credit the doubles hold. */
  ghost predicate InDoubles(c: Limits, kept: Option<int>, now: int) {
    0 < c.interval <= c.tolerance < TWO53 * 1_000 && (kept.Some? ==> now - kept.value < TWO53 * 1_000 - c.tolerance)
  }

  /** Intervals the microseconds can tell, and a key under one quota that is not past when an oversize request is blocked. */
  ghost predicate Countable(c: Limits, seen: Option<int>, now: int, inc: int) {
    && c.interval >= 1_000 && c.tolerance < TWO53 * 1_000
    && Within(seen, now, c.tolerance) && !StaleBlock(c, seen, now, inc)
  }

  /** What a request that found `seen` leaves: that if it is blocked, else the later of now and the time stored, and its charge. */
  function Leaving(seen: Option<int>, now: int, inc: int, limited: bool): Option<int> {
    if limited then seen else Some(Level(seen, now) + inc)
  }

  /** A reply that is true, field by field. */
  ghost predicate Truthful(c: Limits, seen: Option<int>, now: int, inc: int, limited: bool, r: Reply) {
    var kept := Leaving(seen, now, inc, limited);
    && (limited <==> Blocked(c, seen, now, inc))
    && r.limit == c.limit
    && RetryTold(c, seen, now, inc, r.retryAfter)
    && ResetTold(c, kept, now, r.resetAfter)
    && (Countable(c, seen, now, inc) ==> RemainingTold(c, kept, now, r.remaining))
    && (InDoubles(c, kept, now) ==> RemainingExactly(c, kept, now, r.remaining))
  }

  lemma FinishTruthful(c: Limits, fl: Rounding, seen: Option<int>, now: int, inc: int)
    requires Regular(c) && inc >= 0
    ensures var v := Judge(c, seen, now, inc);
            && After(c, seen, now, inc) == Leaving(seen, now, inc, v.limited)
            && Truthful(c, seen, now, inc, v.limited, Finish(c, fl, v))
  {
    Kernel(c, seen, now, inc);
    RetryMeans(c, fl, seen, now, inc);
    ResetMeans(c, fl, seen, now, inc);
    if Countable(c, seen, now, inc) {
      RemainingBounds(c, fl, seen, now, inc);
    }
    if InDoubles(c, After(c, seen, now, inc), now) {
      RemainingMeans(c, fl, After(c, seen, now, inc), now, Judge(c, seen, now, inc));
    }
  }

  lemma OverdrawnShare(fl: Rounding, over: int, t: int)
    requires 1_000 <= t < TWO53 * 1_000 && 0 < over < t
    ensures WholeShare(fl, -over, t) == -((over / 1_000) / (t / 1_000))
  {
    QuotientExact(fl, -(over / 1_000), t / 1_000);
  }

  lemma RemainingMeans(c: Limits, fl: Rounding, kept: Option<int>, now: int, v: Verdict)
    requires Regular(c) && InDoubles(c, kept, now) && v.ttl == if kept.Some? then kept.value - now else 0
    ensures RemainingExactly(c, kept, now, Finish(c, fl, v).remaining)
  {
    if c.interval < 1_000 {
      RemainingSaturates(c, fl, v);
    } else if v.ttl <= c.tolerance {
      ReplyShare(c, fl, v);
    } else if v.ttl - c.tolerance < c.interval {
      OverdrawnShare(fl, v.ttl - c.tolerance, c.interval);
    }
  }

  lemma RetryMeans(c: Limits, fl: Rounding, seen: Option<int>, now: int, inc: int)
    ensures RetryTold(c, seen, now, inc, Finish(c, fl, Judge(c, seen, now, inc)).retryAfter)
  {
  }

  lemma ResetMeans(c: Limits, fl: Rounding, seen: Option<int>, now: int, inc: int)
    requires Regular(c) && inc >= 0
    ensures ResetTold(c, After(c, seen, now, inc), now, Finish(c, fl, Judge(c, seen, now, inc)).resetAfter)
  {
    ResetAfterExact(c, seen, now, inc);
  }

  /** A limiter without overflow, and a quantity it can charge for. */
  predicate Sized(c: Limits, quantity: i64) {
    c.interval < TWO63 && 0 <= quantity && c.interval * quantity < TWO63
  }

  // ---- In memory ------------------------------------------------------------------------------

  /** The call whose attempt `k` is the first not beaten: its reply is true of what that attempt read and left. */
  lemma MemoryReply(c: Limits, fl: Rounding, key: string, quantity: i64, cells: Cells, env: seq<Moment>, k: nat)
    requires Regular(c) && Sized(c, quantity) && k <= MAX_CAS_ATTEMPTS < |env| && InRange(c, env[k].now)
    requires var inc, cell := c.interval * quantity, CellOf(cells, key);
             (forall j | 0 <= j < k :: Beaten(c, inc, cell, env, j)) && !Beaten(c, inc, cell, env, k)
    ensures var inc, now := c.interval * quantity, env[k].now;
            var (res, after) := Throttle(c, fl, key, quantity, InMemory(cells), env);
            && res.Ok? && after.InMemory?
            && var seen := View(SeenAt(CellOf(cells, key), env, k));
            && Truthful(c, seen, now, inc, res.value.0, res.value.1)
            && View(CellOf(after.cells, key)) == Leaving(seen, now, inc, res.value.0)
            && forall other | other != key :: CellOf(after.cells, other) == CellOf(cells, other)
  {
    var inc, cell := c.interval * quantity, CellOf(cells, key);
    var seen := SeenAt(cell, env, k);
    IncrementExact(c, quantity);
    FirstUnbeatenDecides(c, key, inc, cells, env, k);
    FinishTruthful(c, fl, View(seen), env[k].now, inc);
    LeftKeepsKey(cells, key, env, k);
    KeptInMemory(c, key, inc, cells, seen, env[k].now);
  }

  lemma KeptInMemory(c: Limits, key: string, inc: int, cells: Cells, seen: Option<u64>, now: int)
    requires InRange(c, now) && inc >= 0 && (seen == None ==> key !in cells)
    ensures var after := if Blocked(c, View(seen), now, inc) then Place(cells, key, seen) else cells[key := Proposal(c, inc, seen, now)];
            && View(CellOf(after, key)) == After(c, View(seen), now, inc)
            && forall other | other != key :: CellOf(after, other) == CellOf(cells, other)
  {
    if !Blocked(c, View(seen), now, inc) {
      StoredTimeSurvives(c, View(seen), now, inc);
    }
  }

  /** It fails for a zero rate, which touches nothing, and otherwise exactly when all six attempts are beaten. */
  lemma MemoryErrorsIff(c: Limits, fl: Rounding, key: string, quantity: i64, cells: Cells, env: seq<Moment>)
    requires MAX_CAS_ATTEMPTS < |env|
    ensures var got := Throttle(c, fl, key, quantity, InMemory(cells), env);
            && (c.interval == 0 ==> got == (Err(ZeroRate), InMemory(cells)))
            && (c.interval != 0 ==>
                  (got.0 == Err(FailedToUpdate) <==>
                    forall j | 0 <= j <= 5 :: Beaten(c, Increment(c, quantity), CellOf(cells, key), env, j)))
            && (c.interval != 0 && got.0.Err? ==> got.0.error == FailedToUpdate)
  {
    if c.interval != 0 {
      ContentionErrorIff(c, key, Increment(c, quantity), cells, env);
      MemoryNeverPanics(c, key, Increment(c, quantity), cells, env, 0);
    }
  }

  lemma MemoryNeverPanics(c: Limits, key: string, inc: int, cells: Cells, env: seq<Moment>, k: nat)
    requires k <= MAX_CAS_ATTEMPTS < |env|
    ensures var r := Attempt(c, key, inc, InMemory(cells), env, k).0; r.Err? ==> r.error == FailedToUpdate
    decreases MAX_CAS_ATTEMPTS - k
  {
    var (p, after) := TryOnce(c, key, inc, InMemory(cells), env[k], k);
    if !p.Done? {
      MemoryNeverPanics(c, key, inc, after.cells, env, k + 1);
    }
  }

  // ---- In Redis -------------------------------------------------------------------------------

  /** A call at a rate that is not zero, in Redis. */
  lemma ThrottleDecides(c: Limits, fl: Rounding, key: string, quantity: i64, keys: Keys, env: seq<Moment>)
    requires c.interval != 0
    requires MAX_CAS_ATTEMPTS < |env| && Forward(env) && Readable(keys, key, env[0].now)
    ensures var inc := Increment(c, quantity);
            var (seen, m) := Decisive(c, key, inc, keys, env);
            var v := Judge(c, View(seen), m.now, inc);
            Throttle(c, fl, key, quantity, InRedis(keys), env)
              == (Ok((v.limited, Finish(c, fl, v))), RedisDecided(c, key, inc, keys, seen, m).1)
  {
    RedisCall(c, key, Increment(c, quantity), keys, env);
  }

  /** The keys are left alone, or `key` holds `tat` from the write on, for as long as it is to come. */
  ghost predicate LeavesKeys(keys: Keys, after: Keys, key: string, limited: bool, tat: int, m: Moment) {
    if limited then after == keys
    else OthersKept(keys, after, key) && 0 <= tat < TWO64 && HoldsFor(after, key, tat, m.later, tat - m.now)
  }

  lemma TimeDecided(c: Limits, inc: int, seen: Option<u64>, now: int)
    requires InRange(c, now) && inc >= 0 && !Blocked(c, View(seen), now, inc)
    ensures var tat := Level(View(seen), now) + inc;
            && Proposal(c, inc, seen, now) == tat >= now
            && Judge(c, View(seen), now, inc) == Verdict(false, NO_RETRY, tat - now)
  {
    Kernel(c, View(seen), now, inc);
    StoredTimeSurvives(c, View(seen), now, inc);
  }

  lemma KeptInRedis(c: Limits, key: string, inc: int, keys: Keys, seen: Option<u64>, m: Moment)
    requires InRange(c, m.now) && inc >= 0
    ensures var after := RedisDecided(c, key, inc, keys, seen, m).1;
            && after.InRedis?
            && LeavesKeys(keys, after.keys, key, Blocked(c, View(seen), m.now, inc), Level(View(seen), m.now) + inc, m)
  {
    if !Blocked(c, View(seen), m.now, inc) {
      TimeDecided(c, inc, seen, m.now);
      WrittenHoldsFor(keys, key, Proposal(c, inc, seen, m.now), m.later, Judge(c, View(seen), m.now, inc).ttl);
    }
  }

  /** A reply in Redis that is true of what the deciding attempt found and of what the key then holds. */
  ghost predicate Replied(c: Limits, key: string, inc: int, seen: Option<u64>, m: Moment, keys: Keys,
                          limited: bool, r: Reply, after: Keys) {
    var found, tat := View(seen), Level(View(seen), m.now) + inc;
    && 0 <= m.now < TWO64
    && Truthful(c, found, m.now, inc, limited, r)
    && LeavesKeys(keys, after, key, limited, tat, m)
  }

  lemma DecisionReplied(c: Limits, fl: Rounding, key: string, inc: int, keys: Keys, seen: Option<u64>, m: Moment)
    requires Regular(c) && inc >= 0 && InRange(c, m.now)
    ensures var v, after := Judge(c, View(seen), m.now, inc), RedisDecided(c, key, inc, keys, seen, m).1;
            after.InRedis? && Replied(c, key, inc, seen, m, keys, v.limited, Finish(c, fl, v), after.keys)
  {
    IntervalWithinTolerance(c);
    KeptInRedis(c, key, inc, keys, seen, m);
    FinishTruthful(c, fl, View(seen), m.now, inc);
    Kernel(c, View(seen), m.now, inc);
  }

  /** Every call in Redis on a readable key gets such a reply. */
  lemma RedisReply(c: Limits, fl: Rounding, key: string, quantity: i64, inc: int, keys: Keys, env: seq<Moment>)
    requires Regular(c) && Sized(c, quantity) && inc == c.interval * quantity
    requires MAX_CAS_ATTEMPTS < |env| && Forward(env)
    requires Readable(keys, key, env[0].now) && InRange(c, env[0].now) && InRange(c, env[1].now)
    ensures var (seen, m) := Decisive(c, key, inc, keys, env);
            var (res, after) := Throttle(c, fl, key, quantity, InRedis(keys), env);
            res.Ok? && after.InRedis? && Replied(c, key, inc, seen, m, keys, res.value.0, res.value.1, after.keys)
  {
    var (seen, m) := Decisive(c, key, inc, keys, env);
    IncrementExact(c, quantity);
    ThrottleDecides(c, fl, key, quantity, keys, env);
    DecisionReplied(c, fl, key, inc, keys, seen, m);
  }
}
