/**
 Sequential runs of the limiter over one key that never expires: the closed form of the stored
 time, the exact condition under which each request passes, and the splitting of requests.
 */
module Trace {
  import opened Prelude
  import opened Gcra

  /** When it came, and what it is charged: the emission interval times the quantity asked for. */
  datatype Request = Request(now: int, inc: int)

  /** What the key holds after the requests have been judged one after another. */
  function Stored(c: Limits, s: Option<int>, rs: seq<Request>): Option<int> {
    if rs == [] then s
    else
      var n := |rs| - 1;
      After(c, Stored(c, s, rs[..n]), rs[n].now, rs[n].inc)
  }

  predicate Passes(c: Limits, s: Option<int>, rs: seq<Request>, j: nat)
    requires j < |rs|
  {
    !Blocked(c, Stored(c, s, rs[..j]), rs[j].now, rs[j].inc)
  }

  /** The requests that passed, in order. */
  function Admitted(c: Limits, s: Option<int>, rs: seq<Request>): seq<Request> {
    if rs == [] then []
    else
      var n := |rs| - 1;
      Admitted(c, s, rs[..n]) + if Passes(c, s, rs, n) then [rs[n]] else []
  }

  /** What the requests are charged together. */
  function Total(rs: seq<Request>): int {
    if rs == [] then 0 else Total(rs[..|rs| - 1]) + rs[|rs| - 1].inc
  }

  lemma TotalAppend(rs: seq<Request>, r: Request)
    ensures Total(rs + [r]) == Total(rs) + r.inc
  {
  }

  /** Where the schedule would stand if request `i` had found it idle and the rest had followed. */
  function Since(rs: seq<Request>, i: nat): int
    requires i < |rs|
  {
    rs[i].now + Total(rs[i..])
  }

  lemma SinceAppend(rs: seq<Request>, r: Request, i: nat)
    requires i <= |rs|
    ensures Since(rs + [r], i) == (if i < |rs| then Since(rs, i) else r.now) + r.inc
  {
    var tail := rs[i..];
    assert (rs + [r])[i..] == tail + [r];
    TotalAppend(tail, r);
    if i == |rs| {
      assert tail == [];
    }
  }

  /** `v` is the largest of the values `Since` takes on the requests. */
  ghost predicate IsPeak(rs: seq<Request>, v: int) {
    && (forall i | 0 <= i < |rs| :: Since(rs, i) <= v)
    && (exists i | 0 <= i < |rs| :: Since(rs, i) == v)
  }

  lemma PeakAppend(rs: seq<Request>, r: Request, v: int)
    requires rs != [] ==> IsPeak(rs, v)
    ensures IsPeak(rs + [r], (if rs == [] then r.now else Max(v, r.now)) + r.inc)
  {
    var w := (if rs == [] then r.now else Max(v, r.now)) + r.inc;
    forall i | 0 <= i <= |rs| ensures Since(rs + [r], i) <= w {
      SinceAppend(rs, r, i);
    }
    SinceAppend(rs, r, |rs|);
    if rs != [] && v > r.now {
      var k :| 0 <= k < |rs| && Since(rs, k) == v;
      SinceAppend(rs, r, k);
    }
  }

  /** The last request's part in a run. */
  lemma TraceStep(c: Limits, s: Option<int>, rs: seq<Request>)
    requires rs != []
    ensures var front, r := rs[..|rs| - 1], rs[|rs| - 1];
            var passed := !Blocked(c, Stored(c, s, front), r.now, r.inc);
            && Stored(c, s, rs) == After(c, Stored(c, s, front), r.now, r.inc)
            && Admitted(c, s, rs) == Admitted(c, s, front) + if passed then [r] else []
  {
  }

  /**
   The closed form: started on an absent key, the stored time is the maximum over the admitted
   requests of its arrival plus everything admitted from it on. The clock may move either way.
   */
  lemma {:induction false} ClosedForm(c: Limits, rs: seq<Request>)
    ensures var a := Admitted(c, None, rs);
            var s := Stored(c, None, rs);
            if a == [] then s == None else s.Some? && IsPeak(a, s.value)
  {
    if rs != [] {
      var front, r := rs[..|rs| - 1], rs[|rs| - 1];
      ClosedForm(c, front);
      TraceStep(c, None, rs);
      var before := Stored(c, None, front);
      if !Blocked(c, before, r.now, r.inc) {
        PeakAppend(Admitted(c, None, front), r, if before.Some? then before.value else 0);
      } else {
        assert Admitted(c, None, rs) == Admitted(c, None, front);
      }
    }
  }

  /** Every window of `rs` that ends in its last request fits the tolerance. */
  ghost predicate LastConforms(c: Limits, rs: seq<Request>)
    requires rs != []
  {
    var t := rs[|rs| - 1].now;
    forall i | 0 <= i < |rs| :: Total(rs[i..]) <= c.tolerance + (t - rs[i].now)
  }

  lemma ConformsIffSince(c: Limits, rs: seq<Request>)
    requires rs != []
    ensures LastConforms(c, rs) <==> forall i | 0 <= i < |rs| :: Since(rs, i) <= rs[|rs| - 1].now + c.tolerance
  {
    var t := rs[|rs| - 1].now;
    forall i | 0 <= i < |rs|
      ensures Since(rs, i) <= t + c.tolerance <==> Total(rs[i..]) <= c.tolerance + (t - rs[i].now)
    {
    }
  }

  lemma PeakBound(rs: seq<Request>, v: int, bound: int)
    requires IsPeak(rs, v)
    ensures (forall i | 0 <= i < |rs| :: Since(rs, i) <= bound) <==> v <= bound
  {
  }

  /** Whether it passes or not, the time a request asks for is the peak over it and those admitted before it. */
  lemma NextIsPeak(c: Limits, rs: seq<Request>, r: Request)
    ensures IsPeak(Admitted(c, None, rs) + [r], NewTat(Stored(c, None, rs), r.now, r.inc))
  {
    var s := Stored(c, None, rs);
    ClosedForm(c, rs);
    PeakAppend(Admitted(c, None, rs), r, if s.Some? then s.value else 0);
  }

  /**
   Each decision, exactly: a request passes if and only if every window made of it and of the
   requests admitted before it fits the tolerance.
   */
  lemma PassesIffConforms(c: Limits, rs: seq<Request>, j: nat)
    requires j < |rs|
    ensures Passes(c, None, rs, j) <==> LastConforms(c, Admitted(c, None, rs[..j]) + [rs[j]])
  {
    var r, all := rs[j], Admitted(c, None, rs[..j]) + [rs[j]];
    NextIsPeak(c, rs[..j], r);
    PeakBound(all, NewTat(Stored(c, None, rs[..j]), r.now, r.inc), r.now + c.tolerance);
    ConformsIffSince(c, all);
  }

  /** The window `i..j` of requests, both ends included, fits the tolerance. */
  predicate WindowFits(c: Limits, rs: seq<Request>, i: nat, j: nat)
    requires i <= j < |rs|
  {
    Total(rs[i..j + 1]) <= c.tolerance + (rs[j].now - rs[i].now)
  }

  lemma {:induction false} AllPassed(c: Limits, s: Option<int>, rs: seq<Request>)
    requires forall j | 0 <= j < |rs| :: Passes(c, s, rs, j)
    ensures Admitted(c, s, rs) == rs
  {
    if rs != [] {
      var n := |rs| - 1;
      forall j | 0 <= j < n ensures Passes(c, s, rs[..n], j) {
        assert Passes(c, s, rs, j);
        assert rs[..n][..j] == rs[..j];
      }
      AllPassed(c, s, rs[..n]);
    }
  }

  lemma ConformsIffWindows(c: Limits, rs: seq<Request>, j: nat)
    requires j < |rs|
    ensures LastConforms(c, rs[..j + 1]) <==> forall i | 0 <= i <= j :: WindowFits(c, rs, i, j)
  {
    var p := rs[..j + 1];
    forall i | 0 <= i <= j
      ensures WindowFits(c, rs, i, j) <==>
              Total(p[i..]) <= c.tolerance + (p[|p| - 1].now - p[i].now)
    {
      assert p[i..] == rs[i..j + 1];
    }
  }

  /** After a front that was admitted in full, a request passes just if the windows ending in it fit. */
  lemma NextPasses(c: Limits, rs: seq<Request>, j: nat)
    requires j < |rs|
    requires forall k | 0 <= k < j :: Passes(c, None, rs, k)
    ensures Passes(c, None, rs, j) <==> forall i | 0 <= i <= j :: WindowFits(c, rs, i, j)
  {
    forall k | 0 <= k < j ensures Passes(c, None, rs[..j], k) {
      assert Passes(c, None, rs, k);
      assert rs[..j][..k] == rs[..k];
    }
    AllPassed(c, None, rs[..j]);
    PassesIffConforms(c, rs, j);
    assert rs[..j] + [rs[j]] == rs[..j + 1];
    ConformsIffWindows(c, rs, j);
  }

  lemma {:induction false} WindowsAdmit(c: Limits, rs: seq<Request>, n: nat)
    requires n <= |rs|
    requires forall i, j | 0 <= i <= j < n :: WindowFits(c, rs, i, j)
    ensures forall j | 0 <= j < n :: Passes(c, None, rs, j)
  {
    if n > 0 {
      WindowsAdmit(c, rs, n - 1);
      NextPasses(c, rs, n - 1);
    }
  }

  /** A whole trace is admitted if and only if every one of its windows fits the tolerance. */
  lemma TraceAdmittedIffWindowsFit(c: Limits, rs: seq<Request>)
    ensures (forall j | 0 <= j < |rs| :: Passes(c, None, rs, j))
       <==> (forall i, j | 0 <= i <= j < |rs| :: WindowFits(c, rs, i, j))
  {
    if forall i, j | 0 <= i <= j < |rs| :: WindowFits(c, rs, i, j) {
      WindowsAdmit(c, rs, |rs|);
    }
    if forall j | 0 <= j < |rs| :: Passes(c, None, rs, j) {
      forall i, j | 0 <= i <= j < |rs| ensures WindowFits(c, rs, i, j) {
        NextPasses(c, rs, j);
      }
    }
  }

  /** From any stored value, the stored time never falls behind what the admitted requests imply. */
  lemma {:induction false} StoredAtLeast(c: Limits, s: Option<int>, rs: seq<Request>, i: nat)
    requires i < |Admitted(c, s, rs)|
    ensures Stored(c, s, rs).Some?
    ensures Since(Admitted(c, s, rs), i) <= Stored(c, s, rs).value
  {
    var n := |rs| - 1;
    var a := Admitted(c, s, rs[..n]);
    if i < |a| {
      StoredAtLeast(c, s, rs[..n], i);
    }
    if Passes(c, s, rs, n) {
      SinceAppend(a, rs[n], i);
      assert Admitted(c, s, rs) == a + [rs[n]];
      assert Stored(c, s, rs) == Some(NewTat(Stored(c, s, rs[..n]), rs[n].now, rs[n].inc));
    } else {
      assert Admitted(c, s, rs) == a;
    }
  }

  /** The rate bound from any stored value and under any clock: no window of admitted requests exceeds it. */
  lemma {:induction false} WindowBound(c: Limits, s: Option<int>, rs: seq<Request>, i: nat, j: nat)
    requires i <= j < |Admitted(c, s, rs)|
    ensures WindowFits(c, Admitted(c, s, rs), i, j)
  {
    var n := |rs| - 1;
    var all, a := Admitted(c, s, rs), Admitted(c, s, rs[..n]);
    if j < |a| {
      WindowBound(c, s, rs[..n], i, j);
      assert all[i..j + 1] == a[i..j + 1];
    } else {
      StoredAtLeast(c, s, rs, i);
      assert all[i..j + 1] == all[i..];
    }
  }

  // ---- Quantities -----------------------------------------------------------------------------

  function Sum(qs: seq<int>): int {
    if qs == [] then 0 else Sum(qs[..|qs| - 1]) + qs[|qs| - 1]
  }

  /** Quantities asked for at the given times, as the requests the limiter charges. */
  function Charged(c: Limits, times: seq<int>, qs: seq<int>): seq<Request>
    requires |times| == |qs|
  {
    seq(|qs|, i requires 0 <= i < |qs| => Request(times[i], c.interval * qs[i]))
  }

  lemma Distribute(t: int, a: int, b: int)
    ensures t * (a + b) == t * a + t * b
  {
  }

  lemma {:induction false} TotalCharge(c: Limits, times: seq<int>, qs: seq<int>)
    requires |times| == |qs|
    ensures Total(Charged(c, times, qs)) == c.interval * Sum(qs)
  {
    if qs != [] {
      var n := |qs| - 1;
      TotalCharge(c, times[..n], qs[..n]);
      assert Charged(c, times, qs)[..n] == Charged(c, times[..n], qs[..n]);
      Distribute(c.interval, Sum(qs[..n]), qs[n]);
    }
  }

  lemma WindowCharge(c: Limits, times: seq<int>, qs: seq<int>, i: nat, j: nat)
    requires |times| == |qs| && i <= j < |qs|
    ensures WindowFits(c, Charged(c, times, qs), i, j)
       <==> c.interval * Sum(qs[i..j + 1]) <= c.tolerance + (times[j] - times[i])
  {
    TotalCharge(c, times[i..j + 1], qs[i..j + 1]);
    assert Charged(c, times, qs)[i..j + 1] == Charged(c, times[i..j + 1], qs[i..j + 1]);
  }

  /** In quantities: a trace is admitted in full if and only if T times the quantity of every window is at most tau plus its length. */
  lemma QuantitiesAdmittedIff(c: Limits, times: seq<int>, qs: seq<int>)
    requires |times| == |qs|
    ensures (forall j | 0 <= j < |qs| :: Passes(c, None, Charged(c, times, qs), j))
       <==> (forall i, j | 0 <= i <= j < |qs| :: c.interval * Sum(qs[i..j + 1]) <= c.tolerance + (times[j] - times[i]))
  {
    TraceAdmittedIffWindowsFit(c, Charged(c, times, qs));
    forall i, j | 0 <= i <= j < |qs|
      ensures WindowFits(c, Charged(c, times, qs), i, j)
         <==> c.interval * Sum(qs[i..j + 1]) <= c.tolerance + (times[j] - times[i])
    {
      WindowCharge(c, times, qs, i, j);
    }
  }

  /** Requests that all come at the same instant. */
  predicate AtOnce(now: int, rs: seq<Request>) {
    forall r | r in rs :: r.now == now && r.inc >= 0
  }

  lemma {:induction false} BatchRun(c: Limits, s: Option<int>, now: int, rs: seq<Request>)
    requires AtOnce(now, rs)
    ensures var end := Level(s, now) + Total(rs);
            && end >= Level(s, now)
            && (rs != [] && end <= now + c.tolerance ==> Stored(c, s, rs) == Some(end))
            && (rs != [] ==> ((forall j | 0 <= j < |rs| :: Passes(c, s, rs, j)) <==> end <= now + c.tolerance))
  {
    if rs != [] {
      var n := |rs| - 1;
      assert forall r | r in rs[..n] :: r in rs;
      BatchRun(c, s, now, rs[..n]);
      assert rs[n] in rs;
      assert forall j | 0 <= j < n :: rs[..n][..j] == rs[..j];
      assert forall j | 0 <= j < n :: Passes(c, s, rs, j) <==> Passes(c, s, rs[..n], j);
      var front := Level(s, now) + Total(rs[..n]);
      assert n == 0 ==> rs[..n] == [];
      if n == 0 || front <= now + c.tolerance {
        assert Level(Stored(c, s, rs[..n]), now) == front;
        assert Passes(c, s, rs, n) <==> front + rs[n].inc <= now + c.tolerance;
      }
    }
  }

  /**
   Splitting a request: nonnegative quantities sent one by one at one instant all pass if and only
   if their sum passes as one request, and then both leave the same time behind.
   */
  lemma BatchSplitting(c: Limits, s: Option<int>, now: int, qs: seq<int>)
    requires c.interval > 0 && qs != [] && forall q | q in qs :: q >= 0
    ensures var rs := Charged(c, seq(|qs|, _ => now), qs);
            var one := [Request(now, c.interval * Sum(qs))];
            && ((forall j | 0 <= j < |rs| :: Passes(c, s, rs, j)) <==> Passes(c, s, one, 0))
            && (Passes(c, s, one, 0) ==> Stored(c, s, rs) == Stored(c, s, one))
  {
    var times := seq(|qs|, _ => now);
    var rs, one := Charged(c, times, qs), [Request(now, c.interval * Sum(qs))];
    forall r | r in rs ensures r.now == now && r.inc >= 0 {
      var k :| 0 <= k < |rs| && rs[k] == r;
      assert qs[k] in qs;
      NonNegative(c.interval, qs[k]);
    }
    BatchRun(c, s, now, rs);
    TotalCharge(c, times, qs);
    assert one[..0] == [];
  }
}
