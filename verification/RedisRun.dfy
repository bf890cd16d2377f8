/** Whole runs of calls in Redis, as runs over an expiring key: the rate bound the module keeps in service. */
module RedisRun {
  import opened Prelude
  import opened Gcra
  import opened Codec
  import opened Stores
  import opened Loop
  import opened Limiter
  import opened Expiry
  import opened Drift

  /** What a call is charged, and the clock around each of its attempts. */
  datatype TimedCall = TimedCall(inc: int, env: seq<Moment>)

  predicate Usable(c: Limits, call: TimedCall) {
    && call.inc >= 0 && |call.env| > MAX_CAS_ATTEMPTS && Forward(call.env)
    && InRange(c, call.env[0].now) && InRange(c, call.env[1].now)
  }

  function Outcome(c: Limits, key: string, keys: Keys, call: TimedCall): Result<Verdict>
    requires Usable(c, call)
  {
    Attempt(c, key, call.inc, InRedis(keys), call.env, 0).0
  }

  function KeysAfterCall(c: Limits, key: string, keys: Keys, call: TimedCall): Keys
    requires Usable(c, call)
  {
    match Attempt(c, key, call.inc, InRedis(keys), call.env, 0).1
    case InRedis(after) => after
    case InMemory(_) => keys
  }

  /** The key holds what the expiry run says, or is gone if that is nothing. */
  predicate Holds(keys: Keys, key: string, s: Option<Cell>, clock: int) {
    match s
    case None => !Visible(keys, key, clock)
    case Some(cell) =>
      && 0 <= cell.tat < TWO64
      && key in keys && keys[key] == Entry(ToString(cell.tat), Some(cell.expireAt))
  }

  lemma HoldsReadable(keys: Keys, key: string, s: Option<Cell>, from: int, clock: int)
    requires Holds(keys, key, s, from) && from <= clock
    ensures RedisGet(keys, key, clock)
         == Ok(if s.Some? && Visible(keys, key, clock) then Some(s.value.tat) else None)
  {
    if s.Some? {
      StringRoundTrip(s.value.tat);
    }
  }

  /** The call as an arrival: when its deciding attempt read and wrote, and whether the key was gone by then. */
  function ArrivalOf(c: Limits, key: string, keys: Keys, s: Option<Cell>, call: TimedCall): Arrival
    requires Usable(c, call) && Readable(keys, key, call.env[0].now)
  {
    var m := Decisive(c, key, call.inc, keys, call.env).1;
    Arrival(m.now, m.later, call.inc, s.Some? && !Visible(keys, key, m.now))
  }

  /** What the deciding attempt saw is what the expiry run has it see. */
  lemma CallSees(c: Limits, key: string, keys: Keys, s: Option<Cell>, from: int, call: TimedCall)
    requires Usable(c, call) && Holds(keys, key, s, from) && from <= call.env[0].now
    ensures Readable(keys, key, call.env[0].now)
    ensures var a := ArrivalOf(c, key, keys, s, call);
            && (a.gone ==> s.Some? && s.value.expireAt <= a.now)
            && from <= a.now <= a.written && a.inc == call.inc && InRange(c, a.now)
            && (s.Some? && !a.gone ==> Visible(keys, key, a.now))
            && View(Decisive(c, key, call.inc, keys, call.env).0) == Seen(s, a)
  {
    HoldsReadable(keys, key, s, from, call.env[0].now);
    ViewIsIdentity(Decisive(c, key, call.inc, keys, call.env).0);
  }

  lemma WrittenHolds(c: Limits, key: string, keys: Keys, s: Option<Cell>, a: Arrival, seen: Option<u64>)
    requires InRange(c, a.now) && a.inc >= 0 && View(seen) == Seen(s, a) && Admits(c, s, a)
    ensures var v := Judge(c, View(seen), a.now, a.inc);
            && !v.limited
            && Holds(keys[key := Written(a.written, Proposal(c, a.inc, seen, a.now), v.ttl)], key, Step(c, s, a), a.written)
  {
  }

  lemma BlockedHolds(c: Limits, key: string, keys: Keys, s: Option<Cell>, from: int, a: Arrival)
    requires Holds(keys, key, s, from) && from <= a.now <= a.written && !Admits(c, s, a)
    requires a.gone ==> !Visible(keys, key, a.now)
    ensures Judge(c, Seen(s, a), a.now, a.inc).limited
    ensures Holds(keys, key, Step(c, s, a), a.written)
  {
  }

  lemma DecisionHolds(c: Limits, key: string, keys: Keys, s: Option<Cell>, from: int, a: Arrival, seen: Option<u64>)
    requires InRange(c, a.now) && a.inc >= 0 && View(seen) == Seen(s, a)
    requires Holds(keys, key, s, from) && from <= a.now <= a.written
    requires a.gone ==> !Visible(keys, key, a.now)
    ensures var v := Judge(c, View(seen), a.now, a.inc);
            var after := if v.limited then keys else keys[key := Written(a.written, Proposal(c, a.inc, seen, a.now), v.ttl)];
            Holds(after, key, Step(c, s, a), a.written)
  {
    if Admits(c, s, a) {
      WrittenHolds(c, key, keys, s, a, seen);
    } else {
      BlockedHolds(c, key, keys, s, from, a);
    }
  }

  /** A call as its deciding attempt alone tells it. */
  lemma CallDecided(c: Limits, key: string, keys: Keys, call: TimedCall)
    requires Usable(c, call) && Readable(keys, key, call.env[0].now)
    ensures var (seen, m) := Decisive(c, key, call.inc, keys, call.env);
            var v := Judge(c, View(seen), m.now, call.inc);
            && Outcome(c, key, keys, call) == Ok(v)
            && KeysAfterCall(c, key, keys, call)
                 == if v.limited then keys else keys[key := Written(m.later, Proposal(c, call.inc, seen, m.now), v.ttl)]
  {
    RedisCall(c, key, call.inc, keys, call.env);
  }

  /** One call in Redis is one step of the expiry run. */
  lemma CallIsArrival(c: Limits, key: string, keys: Keys, s: Option<Cell>, from: int, call: TimedCall)
    requires Usable(c, call) && Holds(keys, key, s, from) && from <= call.env[0].now
    ensures Readable(keys, key, call.env[0].now)
    ensures var a := ArrivalOf(c, key, keys, s, call);
            && Outcome(c, key, keys, call) == Ok(Judge(c, Seen(s, a), a.now, a.inc))
            && Holds(KeysAfterCall(c, key, keys, call), key, Step(c, s, a), a.written)
  {
    CallSees(c, key, keys, s, from, call);
    var a := ArrivalOf(c, key, keys, s, call);
    CallDecided(c, key, keys, call);
    DecisionHolds(c, key, keys, s, from, a, Decisive(c, key, call.inc, keys, call.env).0);
  }

  /** The keys and the arrivals a list of calls leads to. */
  datatype Trail = Trail(keys: Keys, arrivals: seq<Arrival>)

  /** Each call starts once the one before it has written. */
  ghost predicate Follows(c: Limits, key: string, t: Trail, call: TimedCall) {
    && Usable(c, call) && Readable(t.keys, key, call.env[0].now)
    && (t.arrivals != [] ==> t.arrivals[|t.arrivals| - 1].written <= call.env[0].now)
  }

  function Extend(c: Limits, key: string, t: Trail, call: TimedCall): Trail
    requires Usable(c, call) && Readable(t.keys, key, call.env[0].now)
  {
    Trail(KeysAfterCall(c, key, t.keys, call),
          t.arrivals + [ArrivalOf(c, key, t.keys, Held(c, t.arrivals), call)])
  }

  /** `trails` are the successive states of a run of `calls` on a key that starts out absent. */
  ghost predicate IsRun(c: Limits, key: string, calls: seq<TimedCall>, trails: seq<Trail>) {
    && |trails| == |calls| + 1
    && trails[0].arrivals == [] && key !in trails[0].keys
    && forall k | 0 <= k < |calls| ::
         Follows(c, key, trails[k], calls[k]) && trails[k + 1] == Extend(c, key, trails[k], calls[k])
  }

  ghost predicate Sound(c: Limits, key: string, t: Trail) {
    var n := |t.arrivals|;
    && Clocked(t.arrivals) && KeptUntilDeadline(c, t.arrivals)
    && forall clock | n > 0 ==> t.arrivals[n - 1].written <= clock :: Holds(t.keys, key, Held(c, t.arrivals), clock)
  }

  lemma StepAnswers(c: Limits, key: string, t: Trail, call: TimedCall)
    requires Sound(c, key, t) && Follows(c, key, t, call)
    ensures var s := Held(c, t.arrivals);
            var a := ArrivalOf(c, key, t.keys, s, call);
            && (t.arrivals != [] ==> t.arrivals[|t.arrivals| - 1].written <= a.now)
            && a.now <= a.written && a.inc >= 0
            && (a.gone ==> s.Some? && s.value.expireAt <= a.now)
            && Outcome(c, key, t.keys, call) == Ok(Judge(c, Seen(s, a), a.now, a.inc))
            && Holds(KeysAfterCall(c, key, t.keys, call), key, Step(c, s, a), a.written)
  {
    var n, s := |t.arrivals|, Held(c, t.arrivals);
    var from := if n > 0 then t.arrivals[n - 1].written else call.env[0].now;
    assert Holds(t.keys, key, s, from);
    CallSees(c, key, t.keys, s, from, call);
    CallIsArrival(c, key, t.keys, s, from, call);
  }

  lemma HoldsLater(keys: Keys, key: string, s: Option<Cell>, clock: int)
    requires Holds(keys, key, s, clock)
    ensures forall later | clock <= later :: Holds(keys, key, s, later)
  {
  }

  lemma SoundStep(c: Limits, key: string, t: Trail, call: TimedCall)
    requires Sound(c, key, t) && Follows(c, key, t, call)
    ensures Sound(c, key, Extend(c, key, t, call))
  {
    var s := Held(c, t.arrivals);
    var a := ArrivalOf(c, key, t.keys, s, call);
    StepAnswers(c, key, t, call);
    LastIsLatest(t.arrivals, a.now);
    RunAppend(c, t.arrivals, a);
    HoldsLater(KeysAfterCall(c, key, t.keys, call), key, Step(c, s, a), a.written);
  }

  lemma {:induction false} RunIsSound(c: Limits, key: string, calls: seq<TimedCall>, trails: seq<Trail>, k: nat)
    requires IsRun(c, key, calls, trails) && k <= |calls|
    ensures Sound(c, key, trails[k])
  {
    if k > 0 {
      RunIsSound(c, key, calls, trails, k - 1);
      SoundStep(c, key, trails[k - 1], calls[k - 1]);
      assert trails[k] == Extend(c, key, trails[k - 1], calls[k - 1]);
    } else {
      assert trails[0].arrivals == [];
    }
  }

  /** The arrivals only grow, one for each call. */
  lemma {:induction false} ArrivalsGrow(c: Limits, key: string, calls: seq<TimedCall>, trails: seq<Trail>, j: nat, k: nat)
    requires IsRun(c, key, calls, trails) && j <= k <= |calls|
    ensures |trails[k].arrivals| == k && trails[j].arrivals == trails[k].arrivals[..j]
  {
    if k > 0 {
      ArrivalsGrow(c, key, calls, trails, if j < k then j else k - 1, k - 1);
      assert trails[k] == Extend(c, key, trails[k - 1], calls[k - 1]);
    }
  }

  predicate Succeeds(c: Limits, key: string, t: Trail, call: TimedCall)
    requires Usable(c, call)
  {
    var r := Outcome(c, key, t.keys, call);
    r.Ok? && !r.value.limited
  }

  lemma SucceedsStep(c: Limits, key: string, t: Trail, call: TimedCall)
    requires Sound(c, key, t) && Follows(c, key, t, call)
    ensures Succeeds(c, key, t, call)
       <==> Admits(c, Held(c, t.arrivals), ArrivalOf(c, key, t.keys, Held(c, t.arrivals), call))
  {
    StepAnswers(c, key, t, call);
  }

  /** A call is let through exactly when the expiry run admits its arrival. */
  lemma SucceedsIffAdmitted(c: Limits, key: string, calls: seq<TimedCall>, trails: seq<Trail>, k: nat)
    requires IsRun(c, key, calls, trails) && k < |calls|
    ensures |trails[|calls|].arrivals| == |calls|
    ensures Succeeds(c, key, trails[k], calls[k]) <==> AdmitsAt(c, trails[|calls|].arrivals, k)
  {
    var n, all := |calls|, trails[|calls|].arrivals;
    RunIsSound(c, key, calls, trails, k);
    SucceedsStep(c, key, trails[k], calls[k]);
    ArrivalsGrow(c, key, calls, trails, k, n);
    ArrivalsGrow(c, key, calls, trails, k + 1, n);
    assert trails[k + 1] == Extend(c, key, trails[k], calls[k]);
    assert all[k] == trails[k + 1].arrivals[k];
  }

  /**
   What the module keeps in Redis, over any run of its calls on one key, with expiry, retries and
   the stored strings included: the requests let through from call `i` to call `j` fit the
   tolerance but for one millisecond each time the key was found expired before its time.
   */
  lemma RateBoundInRedis(c: Limits, key: string, calls: seq<TimedCall>, trails: seq<Trail>, i: nat, j: nat)
    requires IsRun(c, key, calls, trails) && i <= j < |calls|
    requires Succeeds(c, key, trails[i], calls[i]) && Succeeds(c, key, trails[j], calls[j])
    ensures var run := trails[|calls|].arrivals;
            && |run| == |calls|
            && Used(c, run, i, j + 1)
                 <= c.tolerance + (run[j].now - run[i].now) + 1_000_000 * EarlyExpiries(c, run, i + 1, j + 1)
  {
    RunIsSound(c, key, calls, trails, |calls|);
    SucceedsIffAdmitted(c, key, calls, trails, i);
    SucceedsIffAdmitted(c, key, calls, trails, j);
    ExpiryDrift(c, trails[|calls|].arrivals, i, j);
  }

  // ---- When that millisecond is at stake ------------------------------------------------------

  /** A run of calls in which no write was cut short keeps the plain rate bound. */
  lemma UncutRateBoundInRedis(c: Limits, key: string, calls: seq<TimedCall>, trails: seq<Trail>, i: nat, j: nat)
    requires IsRun(c, key, calls, trails) && i <= j < |calls|
    requires Succeeds(c, key, trails[i], calls[i]) && Succeeds(c, key, trails[j], calls[j])
    requires var run := trails[|calls|].arrivals; forall k | 0 <= k < |run| :: !CutsShort(c, run, k)
    ensures var run := trails[|calls|].arrivals;
            && |run| == |calls|
            && Used(c, run, i, j + 1) <= c.tolerance + (run[j].now - run[i].now)
  {
    RunIsSound(c, key, calls, trails, |calls|);
    SucceedsIffAdmitted(c, key, calls, trails, i);
    SucceedsIffAdmitted(c, key, calls, trails, j);
    UncutBound(c, trails[|calls|].arrivals, i, j);
  }

  /** A further call is let through and exceeds the rate bound. */
  ghost predicate CallBreaks(c: Limits, key: string, t: Trail, call: TimedCall) {
    && Follows(c, key, t, call) && Succeeds(c, key, t, call)
    && Breaks(c, t.arrivals, ArrivalOf(c, key, t.keys, Held(c, t.arrivals), call))
  }

  ghost predicate SomeCallBreaks(c: Limits, key: string, t: Trail) {
    exists call :: CallBreaks(c, key, t, call)
  }

  /** A call for `inc` during which the clock stands still. */
  function Instant(now: int, inc: int): TimedCall {
    TimedCall(inc, seq(MAX_CAS_ATTEMPTS + 1, _ => Moment([], now, [], now)))
  }

  lemma WitnessIsCall(c: Limits, key: string, t: Trail)
    requires Sound(c, key, t) && t.arrivals != [] && c.tolerance >= 0
    requires Exposed(c, t.arrivals) && InRange(c, Witness(c, t.arrivals).now)
    ensures SomeCallBreaks(c, key, t)
  {
    var s, w := Held(c, t.arrivals), Witness(c, t.arrivals);
    var call := Instant(w.now, w.inc);
    assert Holds(t.keys, key, s, w.now);
    assert !Visible(t.keys, key, w.now);
    ExposedBreaks(c, t.arrivals);
    assert ArrivalOf(c, key, t.keys, s, call) == w;
    SucceedsStep(c, key, t, call);
    assert CallBreaks(c, key, t, call);
  }

  lemma CutShortBreaks(c: Limits, key: string, calls: seq<TimedCall>, trails: seq<Trail>, j: nat)
    requires IsRun(c, key, calls, trails) && c.tolerance >= 0 && j < |trails[|calls|].arrivals|
    requires var run := trails[|calls|].arrivals; CutsShort(c, run, j) && 0 <= run[j].now && InRange(c, run[j].now + c.tolerance)
    ensures j < |calls|
    ensures SomeCallBreaks(c, key, trails[j + 1])
  {
    var run := trails[|calls|].arrivals;
    ArrivalsGrow(c, key, calls, trails, |calls|, |calls|);
    ArrivalsGrow(c, key, calls, trails, j + 1, |calls|);
    RunIsSound(c, key, calls, trails, |calls|);
    RunIsSound(c, key, calls, trails, j + 1);
    CutExposes(c, run, j);
    WitnessInRange(c, run[..j + 1]);
    WitnessIsCall(c, key, trails[j + 1]);
  }

  lemma WitnessInRange(c: Limits, run: seq<Arrival>)
    requires run != [] && Clocked(run) && Exposed(c, run) && AdmitsAt(c, run, |run| - 1)
    requires 0 <= run[|run| - 1].now && InRange(c, run[|run| - 1].now + c.tolerance)
    ensures InRange(c, Witness(c, run).now)
  {
  }

  /**
   The exact condition, for the module in service: at some point of a run of calls a further call
   could be let through beyond the rate bound if and only if some call wrote a time to live with
   more of a broken millisecond than the time between its reading of the clock and its write.
   */
  lemma DriftInRedisIff(c: Limits, key: string, calls: seq<TimedCall>, trails: seq<Trail>)
    requires IsRun(c, key, calls, trails) && c.tolerance >= 0
    requires forall a | a in trails[|calls|].arrivals :: 0 <= a.now && InRange(c, a.now + c.tolerance)
    ensures var run := trails[|calls|].arrivals;
            (exists k | 0 < k <= |calls| :: SomeCallBreaks(c, key, trails[k])) <==> (exists j | 0 <= j < |run| :: CutsShort(c, run, j))
  {
    var run := trails[|calls|].arrivals;
    if j :| 0 <= j < |run| && CutsShort(c, run, j) {
      CutShortBreaks(c, key, calls, trails, j);
    } else if k :| 0 < k <= |calls| && SomeCallBreaks(c, key, trails[k]) {
      var call :| CallBreaks(c, key, trails[k], call);
      RunIsSound(c, key, calls, trails, |calls|);
      ArrivalsGrow(c, key, calls, trails, k, |calls|);
      var a := ArrivalOf(c, key, trails[k].keys, Held(c, trails[k].arrivals), call);
      assert Breaks(c, run[..k], a);
      DriftPossibleIff(c, run);
    }
  }
}
