/**
 One call of the rate limiter over a store: the retry loop in place, the function it computes, and
 what that function amounts to over a memory store with rivals and over Redis.
 */
module Limiter {
  import opened Prelude
  import opened Float
  import opened Gcra
  import opened Codec
  import opened Loop
  import opened Stores

  /**
   What happens around one attempt: rival writes before its read, the clock at the read, rival
   writes between read and update, and the clock at the update.
   */
  datatype Moment = Moment(before: seq<u64>, now: int, between: seq<u64>, later: int)

  /** The second half of a pass: offer the new value, and see whether it landed. */
  function Landing(c: Limits, key: string, inc: int, st: Contents, m: Moment, h: Phase): (Phase, Contents)
    requires h.Holding?
  {
    var ttl := NewTat(View(h.seen), h.now, inc) - h.now;
    var (after, updated) :=
      Update(Interfered(st, key, m.between), key, h.seen, Proposal(c, inc, h.seen, h.now), ttl, m.later);
    match updated
    case Err(e) => (Done(Err(e)), after)
    case Ok(ok) => (OnUpdate(c, inc, h, ok), after)
  }

  /** One pass of the loop: how far it takes the call, and what it leaves in the store. */
  function TryOnce(c: Limits, key: string, inc: int, st: Contents, m: Moment, i: nat): (Phase, Contents) {
    var atRead := Interfered(st, key, m.before);
    match Get(atRead, key, m.now)
    case Err(e) => (Done(Err(e)), atRead)
    case Ok(seen) =>
      var p := OnRead(c, inc, i, seen, m.now);
      if p.Done? then (p, atRead) else Landing(c, key, inc, atRead, m, p)
  }

  /** The outcome of attempts `i`, `i + 1`, ... and what they leave in the store. */
  function Attempt(c: Limits, key: string, inc: int, st: Contents, env: seq<Moment>, i: nat): (Result<Verdict>, Contents)
    requires i <= MAX_CAS_ATTEMPTS < |env|
    decreases MAX_CAS_ATTEMPTS - i
  {
    var (p, after) := TryOnce(c, key, inc, st, env[i], i);
    if p.Done? then (p.result, after) else Attempt(c, key, inc, after, env, i + 1)
  }

  /** A whole call: zero rates are refused, the rest is the loop and the reply made of its verdict. */
  function Throttle(c: Limits, fl: Rounding, key: string, quantity: i64, st: Contents, env: seq<Moment>)
    : (Result<(bool, Reply)>, Contents)
    requires MAX_CAS_ATTEMPTS < |env|
  {
    if c.interval == 0 then (Err(ZeroRate), st)
    else
      var (r, after) := Attempt(c, key, Increment(c, quantity), st, env, 0);
      match r
      case Err(e) => (Err(e), after)
      case Ok(v) => (Ok((v.limited, Finish(c, fl, v))), after)
  }

  class RateLimiter {
    const store: Store
    const delayVariationTolerance: int
    const emissionInterval: int
    const limit: int

    constructor (store: Store, quota: Quota)
      ensures this.store == store && Fields() == New(quota)
    {
      this.store := store;
      delayVariationTolerance := WrapI64(WrapI64(quota.period) * WrapI64(quota.maxBurst + 1));
      emissionInterval := quota.period;
      limit := WrapI64(quota.maxBurst + 1);
    }

    function Fields(): Limits {
      Limits(emissionInterval, delayVariationTolerance, limit)
    }

    /** The whole operation: refuse a zero rate, contend for the key, and report. */
    method RateLimit(key: string, quantity: i64, fl: Rounding, env: seq<Moment>) returns (res: Result<(bool, Reply)>)
      requires MAX_CAS_ATTEMPTS < |env|
      modifies store.Objects()
      ensures (res, store.State()) == Throttle(Fields(), fl, key, quantity, old(store.State()), env)
    {
      if emissionInterval == 0 {
        return Err(ZeroRate);
      }
      var increment := WrapI64(WrapI64(emissionInterval) * quantity);
      var verdict := Contend(key, increment, env);
      if verdict.Err? {
        return Err(verdict.error);
      }
      var reply := Report(fl, verdict.value);
      return Ok((verdict.value.limited, reply));
    }

    /** The loop: attempt after attempt, until one is blocked or lands, or six have failed. */
    method Contend(key: string, increment: int, env: seq<Moment>) returns (res: Result<Verdict>)
      requires MAX_CAS_ATTEMPTS < |env|
      modifies store.Objects()
      ensures (res, store.State()) == Attempt(Fields(), key, increment, old(store.State()), env, 0)
    {
      var i := 0;
      while true
        invariant 0 <= i <= MAX_CAS_ATTEMPTS
        invariant Attempt(Fields(), key, increment, old(store.State()), env, 0)
               == Attempt(Fields(), key, increment, store.State(), env, i)
        decreases MAX_CAS_ATTEMPTS - i
      {
        var p := Pass(key, increment, env[i], i);
        if p.Done? {
          return p.result;
        }
        i := i + 1;
      }
    }

    /** The body of the loop: read, decide, and try to write. */
    method Pass(key: string, increment: int, m: Moment, i: nat) returns (p: Phase)
      modifies store.Objects()
      ensures (p, store.State()) == TryOnce(Fields(), key, increment, old(store.State()), m, i)
    {
      store.Interfere(key, m.before);
      var got := store.GetWithTime(key, m.now);
      if got.Err? {
        return Done(Err(got.error));
      }
      var (tatVal, now) := got.value;
      var tat := if tatVal.Some? then FromNanoseconds(tatVal.value) else now;
      assert tat == Expected(View(tatVal), now);
      var newTat := if now > tat then now + increment else tat + increment;
      assert newTat == NewTat(View(tatVal), now, increment);
      var allowAt := newTat - delayVariationTolerance;
      var diff := now - allowAt;
      if diff < 0 {
        var retryAfter := NO_RETRY;
        if increment <= delayVariationTolerance {
          retryAfter := -diff;
        }
        return Done(Ok(Verdict(true, retryAfter, tat - now)));
      }
      p := Land(key, increment, m, Holding(i, tatVal, now), newTat);
    }

    /** If the key was missing, set it if it still is; if it was there, compare and swap. */
    method Land(key: string, increment: int, m: Moment, h: Phase, newTat: int) returns (p: Phase)
      requires h.Holding? && newTat == NewTat(View(h.seen), h.now, increment)
      requires !Blocked(Fields(), View(h.seen), h.now, increment)
      modifies store.Objects()
      ensures (p, store.State()) == Landing(Fields(), key, increment, old(store.State()), m, h)
    {
      store.Interfere(key, m.between);
      ghost var mid := store.State();
      var newTatNs, ttl := Nanoseconds(newTat), newTat - h.now;
      assert newTatNs == Proposal(Fields(), increment, h.seen, h.now);
      var updated: Result<bool>;
      if h.seen.Some? {
        updated := store.CompareAndSwapWithTtl(key, h.seen.value, newTatNs, ttl, m.later);
      } else {
        updated := store.SetIfNotExistsWithTtl(key, newTatNs, ttl, m.later);
      }
      assert (store.State(), updated) == Update(mid, key, h.seen, newTatNs, ttl, m.later);
      if updated.Err? {
        return Done(Err(updated.error));
      }
      assert Landing(Fields(), key, increment, old(store.State()), m, h)
          == (OnUpdate(Fields(), increment, h, updated.value), store.State());
      if updated.value {
        return Done(Ok(Verdict(false, NO_RETRY, ttl)));
      }
      return if h.i + 1 > MAX_CAS_ATTEMPTS then Done(Err(FailedToUpdate)) else Ready(h.i + 1);
    }

    method Report(fl: Rounding, v: Verdict) returns (reply: Reply)
      ensures reply == Finish(Fields(), fl, v)
    {
      var remaining: i64 := 0;
      var next := delayVariationTolerance - v.ttl;
      if next > -emissionInterval {
        remaining := WholeShare(fl, next, emissionInterval);
      }
      reply := Reply(limit, remaining, v.retryAfter, v.ttl);
    }
  }

  // ---- Over a memory store, with rivals -------------------------------------------------------

  function Brought(cell: Option<u64>, writes: seq<u64>): Option<u64> {
    if writes == [] then cell else Some(writes[|writes| - 1])
  }

  /** What rivals alone make of the key up to attempt `k`, at its read, and at its update. */
  function Left(cell: Option<u64>, env: seq<Moment>, k: nat): Option<u64>
    requires k <= |env|
    decreases k, 0
  {
    if k == 0 then cell else FoundAt(cell, env, k - 1)
  }

  function SeenAt(cell: Option<u64>, env: seq<Moment>, k: nat): Option<u64>
    requires k < |env|
    decreases k, 1
  {
    Brought(Left(cell, env, k), env[k].before)
  }

  function FoundAt(cell: Option<u64>, env: seq<Moment>, k: nat): Option<u64>
    requires k < |env|
    decreases k, 2
  {
    Brought(SeenAt(cell, env, k), env[k].between)
  }

  /** Attempt `k` was admissible when it read, and a rival left another value before it wrote. */
  predicate Beaten(c: Limits, inc: int, cell: Option<u64>, env: seq<Moment>, k: nat)
    requires k < |env|
  {
    && !Blocked(c, View(SeenAt(cell, env, k)), env[k].now, inc)
    && FoundAt(cell, env, k) != SeenAt(cell, env, k)
  }

  function Place(cells: Cells, key: string, cell: Option<u64>): Cells {
    if cell.Some? then cells[key := cell.value] else cells
  }

  lemma PlaceOverwrite(cells: Cells, key: string, cell: Option<u64>, writes: seq<u64>)
    requires cell == None ==> key !in cells
    ensures Overwrite(Place(cells, key, cell), key, writes) == Place(cells, key, Brought(cell, writes))
    ensures CellOf(Place(cells, key, cell), key) == cell
  {
  }

  /** The call from attempt `k` on, told by the rivals' writes alone. */
  function Rivalled(c: Limits, key: string, inc: int, cells: Cells, env: seq<Moment>, k: nat): (Result<Verdict>, Contents)
    requires k <= MAX_CAS_ATTEMPTS < |env|
    decreases MAX_CAS_ATTEMPTS - k
  {
    var cell := CellOf(cells, key);
    if Beaten(c, inc, cell, env, k) then
      if k < MAX_CAS_ATTEMPTS then Rivalled(c, key, inc, cells, env, k + 1)
      else (Err(FailedToUpdate), InMemory(Place(cells, key, Left(cell, env, k + 1))))
    else
      var seen := SeenAt(cell, env, k);
      var v := Judge(c, View(seen), env[k].now, inc);
      (Ok(v), InMemory(Place(cells, key, if v.limited then seen else Some(Proposal(c, inc, seen, env[k].now)))))
  }

  /** One pass over a memory store whose key holds what the rivals left. */
  lemma MemoryPass(c: Limits, key: string, inc: int, cells: Cells, env: seq<Moment>, k: nat)
    requires k <= MAX_CAS_ATTEMPTS < |env|
    ensures var cell := CellOf(cells, key);
            var seen := SeenAt(cell, env, k);
            TryOnce(c, key, inc, InMemory(Place(cells, key, Left(cell, env, k))), env[k], k)
              == if Beaten(c, inc, cell, env, k) then
                   (OnUpdate(c, inc, Holding(k, seen, env[k].now), false), InMemory(Place(cells, key, Left(cell, env, k + 1))))
                 else
                   var v := Judge(c, View(seen), env[k].now, inc);
                   (Done(Ok(v)), InMemory(Place(cells, key, if v.limited then seen else Some(Proposal(c, inc, seen, env[k].now)))))
  {
    var cell, m := CellOf(cells, key), env[k];
    var left, seen, found := Left(cell, env, k), SeenAt(cell, env, k), FoundAt(cell, env, k);
    LeftKeepsKey(cells, key, env, k);
    PlaceOverwrite(cells, key, left, m.before);
    PlaceOverwrite(cells, key, seen, m.between);
    PlaceOverwrite(cells, key, found, [Proposal(c, inc, seen, m.now)]);
  }

  lemma AttemptStep(c: Limits, key: string, inc: int, st: Contents, env: seq<Moment>, i: nat, p: Phase, after: Contents)
    requires i <= MAX_CAS_ATTEMPTS < |env| && (p, after) == TryOnce(c, key, inc, st, env[i], i)
    ensures p.Ready? ==> i < MAX_CAS_ATTEMPTS
    ensures Attempt(c, key, inc, st, env, i)
         == if p.Done? then (p.result, after) else Attempt(c, key, inc, after, env, i + 1)
  {
  }

  /** Over a memory store the loop does what the rivals' writes alone tell. */
  lemma {:induction false} AttemptIsRivalled(c: Limits, key: string, inc: int, cells: Cells, env: seq<Moment>, k: nat)
    requires k <= MAX_CAS_ATTEMPTS < |env|
    ensures Attempt(c, key, inc, InMemory(Place(cells, key, Left(CellOf(cells, key), env, k))), env, k)
         == Rivalled(c, key, inc, cells, env, k)
    decreases MAX_CAS_ATTEMPTS - k
  {
    MemoryPass(c, key, inc, cells, env, k);
    var at := InMemory(Place(cells, key, Left(CellOf(cells, key), env, k)));
    var (p, after) := TryOnce(c, key, inc, at, env[k], k);
    AttemptStep(c, key, inc, at, env, k, p, after);
    if k < MAX_CAS_ATTEMPTS {
      AttemptIsRivalled(c, key, inc, cells, env, k + 1);
    }
  }

  /** Rivals only write, so a key that is there stays. */
  lemma {:induction false} LeftKeepsKey(cells: Cells, key: string, env: seq<Moment>, k: nat)
    requires k <= |env|
    ensures Left(CellOf(cells, key), env, k) == None ==> key !in cells
  {
    if k > 0 {
      LeftKeepsKey(cells, key, env, k - 1);
      var cell := CellOf(cells, key);
      assert FoundAt(cell, env, k - 1) == None ==> SeenAt(cell, env, k - 1) == None;
    }
  }

  lemma {:induction false} SkipBeaten(c: Limits, key: string, inc: int, cells: Cells, env: seq<Moment>, k: nat)
    requires k <= MAX_CAS_ATTEMPTS < |env|
    requires forall j | 0 <= j < k :: Beaten(c, inc, CellOf(cells, key), env, j)
    ensures Rivalled(c, key, inc, cells, env, 0) == Rivalled(c, key, inc, cells, env, k)
  {
    if k > 0 {
      SkipBeaten(c, key, inc, cells, env, k - 1);
      assert Beaten(c, inc, CellOf(cells, key), env, k - 1);
    }
  }

  /**
   A call over a memory store, exactly: the first attempt not beaten decides, on the value it read,
   and writes over that very value; if all six are beaten the call fails and writes nothing.
   */
  lemma FirstUnbeatenDecides(c: Limits, key: string, inc: int, cells: Cells, env: seq<Moment>, k: nat)
    requires k <= MAX_CAS_ATTEMPTS + 1 <= |env|
    requires forall j | 0 <= j < k :: Beaten(c, inc, CellOf(cells, key), env, j)
    requires k <= MAX_CAS_ATTEMPTS ==> !Beaten(c, inc, CellOf(cells, key), env, k)
    ensures var cell := CellOf(cells, key);
            var got := Attempt(c, key, inc, InMemory(cells), env, 0);
            if k > MAX_CAS_ATTEMPTS then
              got == (Err(FailedToUpdate), InMemory(Place(cells, key, Left(cell, env, k))))
            else
              var seen := SeenAt(cell, env, k);
              var v := Judge(c, View(seen), env[k].now, inc);
              && got.0 == Ok(v)
              && (v.limited ==> got.1 == InMemory(Place(cells, key, seen)))
              && (!v.limited ==> FoundAt(cell, env, k) == seen)
              && (!v.limited ==> got.1 == InMemory(cells[key := Proposal(c, inc, seen, env[k].now)]))
  {
    var j := if k > MAX_CAS_ATTEMPTS then MAX_CAS_ATTEMPTS else k;
    assert Place(cells, key, CellOf(cells, key)) == cells;
    AttemptIsRivalled(c, key, inc, cells, env, 0);
    SkipBeaten(c, key, inc, cells, env, j);
  }

  /** The contention error, exactly: rivals changed the value under each of six admissible attempts. */
  lemma ContentionErrorIff(c: Limits, key: string, inc: int, cells: Cells, env: seq<Moment>)
    requires MAX_CAS_ATTEMPTS + 1 <= |env|
    ensures Attempt(c, key, inc, InMemory(cells), env, 0).0 == Err(FailedToUpdate)
       <==> forall j | 0 <= j <= MAX_CAS_ATTEMPTS :: Beaten(c, inc, CellOf(cells, key), env, j)
  {
    var cell := CellOf(cells, key);
    var k := 0;
    while k <= MAX_CAS_ATTEMPTS && Beaten(c, inc, cell, env, k)
      invariant 0 <= k <= MAX_CAS_ATTEMPTS + 1
      invariant forall j | 0 <= j < k :: Beaten(c, inc, cell, env, j)
    {
      k := k + 1;
    }
    FirstUnbeatenDecides(c, key, inc, cells, env, k);
  }

  /** Left alone, a call reads once, decides once and writes once: the sequential step of the kernel. */
  lemma UncontendedStep(c: Limits, key: string, inc: int, cells: Cells, env: seq<Moment>)
    requires MAX_CAS_ATTEMPTS + 1 <= |env| && env[0].before == [] && env[0].between == []
    requires InRange(c, env[0].now) && inc >= 0
    ensures var seen := View(CellOf(cells, key));
            var got := Attempt(c, key, inc, InMemory(cells), env, 0);
            && got.0 == Ok(Judge(c, seen, env[0].now, inc))
            && got.1.InMemory?
            && View(CellOf(got.1.cells, key)) == After(c, seen, env[0].now, inc)
            && forall other | other != key :: CellOf(got.1.cells, other) == CellOf(cells, other)
  {
  }

  // ---- In Redis, alone but with a clock -------------------------------------------------------

  /** The key is absent or holds a number. */
  predicate Readable(keys: Keys, key: string, clock: int) {
    RedisGet(keys, key, clock).Ok?
  }

  /** The clock does not go back within a call. */
  predicate Forward(env: seq<Moment>) {
    |env| >= 2 && env[0].now <= env[0].later <= env[1].now <= env[1].later
  }

  /** The key was read, the request was admissible, and then the key expired under it. */
  predicate ExpiredMidway(c: Limits, key: string, inc: int, keys: Keys, env: seq<Moment>)
    requires |env| > 0 && Readable(keys, key, env[0].now)
  {
    && Visible(keys, key, env[0].now)
    && !Visible(keys, key, env[0].later)
    && !Blocked(c, View(RedisGet(keys, key, env[0].now).value), env[0].now, inc)
  }

  /** What the deciding attempt of a call in Redis read, and when. */
  function Decisive(c: Limits, key: string, inc: int, keys: Keys, env: seq<Moment>): (Option<u64>, Moment)
    requires |env| >= 2 && Readable(keys, key, env[0].now)
  {
    if ExpiredMidway(c, key, inc, keys, env) then (None, env[1]) else (RedisGet(keys, key, env[0].now).value, env[0])
  }

  /** What a pass that decides on `seen` at moment `m` makes of the keys. */
  function RedisDecided(c: Limits, key: string, inc: int, keys: Keys, seen: Option<u64>, m: Moment): (Result<Verdict>, Contents) {
    var v := Judge(c, View(seen), m.now, inc);
    (Ok(v), InRedis(if v.limited then keys else keys[key := Written(m.later, Proposal(c, inc, seen, m.now), v.ttl)]))
  }

  /** An admitted update in Redis lands, unless the key has expired since it was read. */
  lemma RedisLands(c: Limits, key: string, inc: int, keys: Keys, m: Moment, h: Phase)
    requires Readable(keys, key, m.now) && m.now <= m.later
    requires h.Holding? && h.seen == RedisGet(keys, key, m.now).value && h.now == m.now
    requires h.seen.Some? ==> Visible(keys, key, m.later)
    ensures var t := NewTat(View(h.seen), m.now, inc);
            Landing(c, key, inc, InRedis(keys), m, h)
              == (Done(Ok(Judge(c, View(h.seen), m.now, inc))),
                  InRedis(keys[key := Written(m.later, Proposal(c, inc, h.seen, m.now), t - m.now)]))
  {
  }

  /** A pass under which the key does not expire decides; a new key cannot expire under it. */
  lemma RedisPass(c: Limits, key: string, inc: int, keys: Keys, m: Moment, i: nat)
    requires Readable(keys, key, m.now) && m.now <= m.later
    requires var seen := RedisGet(keys, key, m.now).value;
             seen.Some? && !Blocked(c, View(seen), m.now, inc) ==> Visible(keys, key, m.later)
    ensures var (r, after) := RedisDecided(c, key, inc, keys, RedisGet(keys, key, m.now).value, m);
            TryOnce(c, key, inc, InRedis(keys), m, i) == (Done(r), after)
  {
    var seen := RedisGet(keys, key, m.now).value;
    var p := OnRead(c, inc, i, seen, m.now);
    if p.Holding? {
      RedisLands(c, key, inc, keys, m, p);
    }
  }

  /** A pass under which the key expires leaves it gone and the call to try again. */
  lemma RedisMiss(c: Limits, key: string, inc: int, keys: Keys, env: seq<Moment>)
    requires Forward(env) && Readable(keys, key, env[0].now) && ExpiredMidway(c, key, inc, keys, env)
    ensures TryOnce(c, key, inc, InRedis(keys), env[0], 0) == (Ready(1), InRedis(keys))
    ensures RedisGet(keys, key, env[1].now) == Ok(None)
  {
  }

  /**
   A call in Redis, exactly: it never fails for contention and needs a second attempt only if the
   key expired between its read and its write, when it decides afresh on the absent key.
   */
  lemma RedisCall(c: Limits, key: string, inc: int, keys: Keys, env: seq<Moment>)
    requires MAX_CAS_ATTEMPTS < |env| && Forward(env) && Readable(keys, key, env[0].now)
    ensures var (seen, m) := Decisive(c, key, inc, keys, env);
            Attempt(c, key, inc, InRedis(keys), env, 0) == RedisDecided(c, key, inc, keys, seen, m)
  {
    if ExpiredMidway(c, key, inc, keys, env) {
      RedisMiss(c, key, inc, keys, env);
      RedisPass(c, key, inc, keys, env[1], 1);
    } else {
      RedisPass(c, key, inc, keys, env[0], 0);
    }
  }

  /** Something else under the key, such as a text that is no number, ends the call before it writes. */
  lemma UnreadableKey(c: Limits, key: string, inc: int, keys: Keys, env: seq<Moment>)
    requires MAX_CAS_ATTEMPTS < |env| && !Readable(keys, key, env[0].now)
    ensures Attempt(c, key, inc, InRedis(keys), env, 0) == (Err(Panic), InRedis(keys))
  {
  }

  /** And a second attempt, finding the key absent, always lets the call through. */
  lemma MissedCallPasses(c: Limits, key: string, inc: int, keys: Keys, env: seq<Moment>)
    requires Forward(env) && Readable(keys, key, env[0].now) && ExpiredMidway(c, key, inc, keys, env)
    ensures !Blocked(c, View(Decisive(c, key, inc, keys, env).0), env[1].now, inc)
  {
  }
}
