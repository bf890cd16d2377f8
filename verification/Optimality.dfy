/**
 No other way of choosing among the same unit requests, while keeping to the same tolerance,
 ever gets ahead of the limiter.
 */
module Optimality {
  import opened Prelude
  import opened Gcra
  import opened Trace
  import opened Equivalence

  /** What is stored, and how many were admitted, when `picks` decides instead of the limiter. */
  datatype Tally = Tally(stored: Option<int>, admitted: nat)

  function Pick(c: Limits, s: Option<int>, rs: seq<Request>, picks: seq<bool>): Tally
    requires |picks| == |rs|
  {
    if rs == [] then Tally(s, 0)
    else
      var n := |rs| - 1;
      var t := Pick(c, s, rs[..n], picks[..n]);
      if picks[n] then Tally(Some(NewTat(t.stored, rs[n].now, rs[n].inc)), t.admitted + 1) else t
  }

  /** Each request picked would have passed the limiter's own test in the state the picks lead to. */
  predicate KeepsTolerance(c: Limits, s: Option<int>, rs: seq<Request>, picks: seq<bool>)
    requires |picks| == |rs|
  {
    rs == [] ||
    var n := |rs| - 1;
    && KeepsTolerance(c, s, rs[..n], picks[..n])
    && (picks[n] ==> !Blocked(c, Pick(c, s, rs[..n], picks[..n]).stored, rs[n].now, rs[n].inc))
  }

  /** The limiter is at least as many admissions ahead as its schedule is further ahead. */
  predicate Leads(c: Limits, s: Option<int>, count: nat, t: Tally, now: int) {
    && t.admitted <= count
    && Level(s, now) <= Level(t.stored, now) + (count - t.admitted) * c.interval
  }

  lemma LeadLasts(c: Limits, s: Option<int>, count: nat, t: Tally, now: int, later: int)
    requires c.interval > 0 && Leads(c, s, count, t, now) && now <= later
    ensures Leads(c, s, count, t, later)
  {
    NonNegative(count - t.admitted, c.interval);
  }

  lemma LeadStep(c: Limits, s: Option<int>, count: nat, t: Tally, now: int, pick: bool)
    requires c.interval > 0 && Leads(c, s, count, t, now)
    requires pick ==> !Blocked(c, t.stored, now, c.interval)
    ensures var count' := if Blocked(c, s, now, c.interval) then count else count + 1;
            var t' := if pick then Tally(Some(NewTat(t.stored, now, c.interval)), t.admitted + 1) else t;
            Leads(c, After(c, s, now, c.interval), count', t', now)
  {
  }

  lemma GreedyStep(c: Limits, s: Option<int>, count: nat, t: Tally, before: int, r: Request, pick: bool)
    requires c.interval > 0 && Leads(c, s, count, t, before)
    requires before <= r.now && r.inc == c.interval
    requires pick ==> !Blocked(c, t.stored, r.now, r.inc)
    ensures var count' := if Blocked(c, s, r.now, r.inc) then count else count + 1;
            var t' := if pick then Tally(Some(NewTat(t.stored, r.now, r.inc)), t.admitted + 1) else t;
            Leads(c, After(c, s, r.now, r.inc), count', t', r.now)
  {
    LeadLasts(c, s, count, t, before, r.now);
    LeadStep(c, s, count, t, r.now, pick);
  }

  function LastNow(from: int, rs: seq<Request>): int {
    if rs == [] then from else rs[|rs| - 1].now
  }

  /** The last request's part in both counts. */
  lemma TallyStep(c: Limits, s: Option<int>, rs: seq<Request>, picks: seq<bool>)
    requires rs != [] && |picks| == |rs|
    ensures var n := |rs| - 1;
            var g, t, r := Stored(c, s, rs[..n]), Pick(c, s, rs[..n], picks[..n]), rs[n];
            && Stored(c, s, rs) == After(c, g, r.now, r.inc)
            && |Admitted(c, s, rs)| == |Admitted(c, s, rs[..n])| + (if Blocked(c, g, r.now, r.inc) then 0 else 1)
            && Pick(c, s, rs, picks) == (if picks[n] then Tally(Some(NewTat(t.stored, r.now, r.inc)), t.admitted + 1) else t)
  {
    TraceStep(c, s, rs);
  }

  lemma {:induction false} GreedyLeads(c: Limits, s: Option<int>, from: int, rs: seq<Request>, picks: seq<bool>)
    requires c.interval > 0 && Nondecreasing(from, rs) && |picks| == |rs|
    requires forall k | 0 <= k < |rs| :: rs[k].inc == c.interval
    requires KeepsTolerance(c, s, rs, picks)
    ensures Leads(c, Stored(c, s, rs), |Admitted(c, s, rs)|, Pick(c, s, rs, picks), LastNow(from, rs))
  {
    if rs != [] {
      var n := |rs| - 1;
      var front, before := rs[..n], picks[..n];
      GreedyLeads(c, s, from, front, before);
      TallyStep(c, s, rs, picks);
      GreedyStep(c, Stored(c, s, front), |Admitted(c, s, front)|, Pick(c, s, front, before), LastNow(from, front), rs[n], picks[n]);
    }
  }

  /** In every prefix of the run, no such choice has admitted more than the limiter. */
  lemma GreedyIsOptimal(c: Limits, s: Option<int>, from: int, rs: seq<Request>, picks: seq<bool>, k: nat)
    requires c.interval > 0 && Nondecreasing(from, rs) && |picks| == |rs| && k <= |rs|
    requires forall i | 0 <= i < |rs| :: rs[i].inc == c.interval
    requires KeepsTolerance(c, s, rs, picks)
    ensures Pick(c, s, rs[..k], picks[..k]).admitted <= |Admitted(c, s, rs[..k])|
  {
    PrefixKeepsTolerance(c, s, rs, picks, k);
    GreedyLeads(c, s, from, rs[..k], picks[..k]);
  }

  lemma {:induction false} PrefixKeepsTolerance(c: Limits, s: Option<int>, rs: seq<Request>, picks: seq<bool>, k: nat)
    requires |picks| == |rs| && k <= |rs| && KeepsTolerance(c, s, rs, picks)
    ensures KeepsTolerance(c, s, rs[..k], picks[..k])
  {
    if k < |rs| {
      var n := |rs| - 1;
      PrefixKeepsTolerance(c, s, rs[..n], picks[..n], k);
      assert rs[..n][..k] == rs[..k] && picks[..n][..k] == picks[..k];
    } else {
      assert rs[..k] == rs && picks[..k] == picks;
    }
  }
}
