/**
 The limiter as the textbook algorithms: a token bucket, and both forms of GCRA(T, tau) in
 Annex A of ITU-T Recommendation I.371.
 */
module Bucket {
  import opened Prelude
  import opened Gcra
  import opened Trace
  import opened Equivalence

  /** A bucket holding up to the tolerance, refilled by one for every nanosecond. */
  datatype Tokens = Tokens(level: int, filledAt: int)

  function Refill(c: Limits, b: Tokens, now: int): int {
    var full := b.level + (now - b.filledAt);
    if full > c.tolerance then c.tolerance else full
  }

  predicate Affords(c: Limits, b: Tokens, r: Request) {
    r.inc <= Refill(c, b, r.now)
  }

  function Draw(c: Limits, b: Tokens, r: Request): Tokens {
    Tokens(Refill(c, b, r.now) - (if Affords(c, b, r) then r.inc else 0), r.now)
  }

  function BucketAfter(c: Limits, b: Tokens, rs: seq<Request>): Tokens {
    if rs == [] then b else Draw(c, BucketAfter(c, b, rs[..|rs| - 1]), rs[|rs| - 1])
  }

  /** The bucket lacks exactly what the schedule is ahead by. */
  predicate Mirrors(c: Limits, b: Tokens, s: Option<int>) {
    b.level == c.tolerance - (Level(s, b.filledAt) - b.filledAt)
  }

  lemma MirrorStep(c: Limits, b: Tokens, s: Option<int>, r: Request)
    requires Mirrors(c, b, s) && b.filledAt <= r.now
    ensures Affords(c, b, r) <==> !Blocked(c, s, r.now, r.inc)
    ensures r.inc >= 0 ==> Mirrors(c, Draw(c, b, r), After(c, s, r.now, r.inc))
  {
  }

  lemma {:induction false} MirrorRun(c: Limits, t0: int, rs: seq<Request>)
    requires Nondecreasing(t0, rs) && forall r | r in rs :: r.inc >= 0
    ensures var b := BucketAfter(c, Tokens(c.tolerance, t0), rs);
            && Mirrors(c, b, Stored(c, None, rs))
            && b.filledAt == if rs == [] then t0 else rs[|rs| - 1].now
  {
    if rs != [] {
      var n := |rs| - 1;
      forall r | r in rs[..n] ensures r.inc >= 0 { assert r in rs; }
      MirrorRun(c, t0, rs[..n]);
      assert rs[n] in rs;
      MirrorStep(c, BucketAfter(c, Tokens(c.tolerance, t0), rs[..n]), Stored(c, None, rs[..n]), rs[n]);
    }
  }

  /** Over every run with a clock that does not go back, the limiter decides as the full token bucket does. */
  lemma RefinesTokenBucket(c: Limits, t0: int, rs: seq<Request>, j: nat)
    requires Nondecreasing(t0, rs) && j < |rs|
    requires forall r | r in rs :: r.inc >= 0
    ensures Passes(c, None, rs, j) <==> Affords(c, BucketAfter(c, Tokens(c.tolerance, t0), rs[..j]), rs[j])
  {
    forall r | r in rs[..j] ensures r.inc >= 0 { assert r in rs; }
    MirrorRun(c, t0, rs[..j]);
    MirrorStep(c, BucketAfter(c, Tokens(c.tolerance, t0), rs[..j]), Stored(c, None, rs[..j]), rs[j]);
  }

  /** GCRA(T, tau), virtual scheduling: the theoretical arrival time, and whether a cell at `ta` conforms. */
  predicate SchedulingConforms(tau: int, tat: int, ta: int) {
    !(tat > ta + tau)
  }

  function SchedulingNext(t: int, tau: int, tat: int, ta: int): int {
    if tat < ta then ta + t
    else if tat > ta + tau then tat
    else tat + t
  }

  function Scheduling(t: int, tau: int, tat: int, arrivals: seq<int>): int {
    if arrivals == [] then tat
    else SchedulingNext(t, tau, Scheduling(t, tau, tat, arrivals[..|arrivals| - 1]), arrivals[|arrivals| - 1])
  }

  /** GCRA(T, tau), continuous-state leaky bucket: the bucket counter and the last conformance time. */
  datatype Leaky = Leaky(x: int, lct: int)

  predicate LeakyConforms(tau: int, b: Leaky, ta: int) {
    b.x - (ta - b.lct) <= tau
  }

  function LeakyNext(t: int, tau: int, b: Leaky, ta: int): Leaky {
    var left := b.x - (ta - b.lct);
    if left < 0 then Leaky(t, ta)
    else if left > tau then b
    else Leaky(left + t, ta)
  }

  function LeakyRun(t: int, tau: int, b: Leaky, arrivals: seq<int>): Leaky {
    if arrivals == [] then b
    else LeakyNext(t, tau, LeakyRun(t, tau, b, arrivals[..|arrivals| - 1]), arrivals[|arrivals| - 1])
  }

  /** Requests for one unit each. */
  function Units(c: Limits, arrivals: seq<int>): seq<Request> {
    seq(|arrivals|, i requires 0 <= i < |arrivals| => Request(arrivals[i], c.interval))
  }

  /** What the three automata have in common after the same unit arrivals, the first of them at `first`. */
  predicate InStep(s: Option<int>, tat: int, b: Leaky, first: int) {
    && tat == (if s.Some? then s.value else first)
    && b.x + b.lct == tat
  }

  lemma StandardStep(c: Limits, tau: int, s: Option<int>, tat: int, b: Leaky, first: int, ta: int)
    requires c.interval > 0 && 0 <= tau == c.tolerance - c.interval
    requires InStep(s, tat, b, first) && (s == None ==> ta == first)
    ensures var passes := !Blocked(c, s, ta, c.interval);
            && (passes <==> SchedulingConforms(tau, tat, ta))
            && (passes <==> LeakyConforms(tau, b, ta))
    ensures var s' := After(c, s, ta, c.interval);
            && s'.Some?
            && InStep(s', SchedulingNext(c.interval, tau, tat, ta), LeakyNext(c.interval, tau, b, ta), first)
  {
  }

  /** The limit of the standard is the limiter's tolerance less one interval. */
  lemma StandardLimit(c: Limits)
    requires Regular(c)
    ensures 0 <= c.interval * (c.limit - 1) == c.tolerance - c.interval
  {
  }

  lemma {:induction false} StandardRun(c: Limits, tau: int, first: int, arrivals: seq<int>)
    requires c.interval > 0 && 0 <= tau == c.tolerance - c.interval
    requires arrivals != [] ==> arrivals[0] == first
    ensures var s := Stored(c, None, Units(c, arrivals));
            && (s == None ==> arrivals == [])
            && InStep(s, Scheduling(c.interval, tau, first, arrivals),
                      LeakyRun(c.interval, tau, Leaky(0, first), arrivals), first)
  {
    if arrivals != [] {
      var n := |arrivals| - 1;
      var us := Units(c, arrivals);
      assert us[..n] == Units(c, arrivals[..n]) && us[n] == Request(arrivals[n], c.interval);
      StandardRun(c, tau, first, arrivals[..n]);
      StandardStep(c, tau, Stored(c, None, us[..n]), Scheduling(c.interval, tau, first, arrivals[..n]),
                   LeakyRun(c.interval, tau, Leaky(0, first), arrivals[..n]), first, arrivals[n]);
    }
  }

  /**
   For unit requests the limiter decides as both forms of GCRA(T, max_burst * T) of the standard,
   started as the standard starts them, whatever the clock does.
   */
  lemma RefinesStandardGcra(c: Limits, arrivals: seq<int>, j: nat)
    requires Regular(c) && j < |arrivals|
    ensures var tau, first := c.interval * (c.limit - 1), arrivals[0];
            var passes := Passes(c, None, Units(c, arrivals), j);
            && (passes <==> SchedulingConforms(tau, Scheduling(c.interval, tau, first, arrivals[..j]), arrivals[j]))
            && (passes <==> LeakyConforms(tau, LeakyRun(c.interval, tau, Leaky(0, first), arrivals[..j]), arrivals[j]))
  {
    var tau, first, us := c.interval * (c.limit - 1), arrivals[0], Units(c, arrivals);
    StandardLimit(c);
    assert us[..j] == Units(c, arrivals[..j]) && us[j] == Request(arrivals[j], c.interval);
    StandardRun(c, tau, first, arrivals[..j]);
    StandardStep(c, tau, Stored(c, None, us[..j]), Scheduling(c.interval, tau, first, arrivals[..j]),
                 LeakyRun(c.interval, tau, Leaky(0, first), arrivals[..j]), first, arrivals[j]);
  }
}
