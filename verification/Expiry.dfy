/**
 Runs over a key that expires. The time to live is cut to whole milliseconds, so a key can vanish
 up to a millisecond before the time it stands for; nothing is assumed of how much later it does.
 */
module Expiry {
  import opened Prelude
  import opened Gcra
  import opened Stores
  import opened Trace
  import opened Equivalence

  datatype Cell = Cell(tat: int, expireAt: int)

  /** A request: the instant it read the key, the instant it wrote, and whether the key had just vanished. */
  datatype Arrival = Arrival(now: int, written: int, inc: int, gone: bool)

  function TatOf(s: Option<Cell>): Option<int> {
    if s.Some? then Some(s.value.tat) else None
  }

  function Seen(s: Option<Cell>, a: Arrival): Option<int> {
    if a.gone then None else TatOf(s)
  }

  predicate Admits(c: Limits, s: Option<Cell>, a: Arrival) {
    !Blocked(c, Seen(s, a), a.now, a.inc)
  }

  function Step(c: Limits, s: Option<Cell>, a: Arrival): Option<Cell> {
    if Admits(c, s, a) then
      var t := NewTat(Seen(s, a), a.now, a.inc);
      Some(Cell(t, Deadline(a.written, t - a.now)))
    else if a.gone then None
    else s
  }

  function Held(c: Limits, run: seq<Arrival>): Option<Cell> {
    if run == [] then None else Step(c, Held(c, run[..|run| - 1]), run[|run| - 1])
  }

  predicate AdmitsAt(c: Limits, run: seq<Arrival>, j: nat)
    requires j < |run|
  {
    Admits(c, Held(c, run[..j]), run[j])
  }

  /** One clock for reads and writes, that never goes back; nonnegative charges. */
  predicate Clocked(run: seq<Arrival>) {
    && (forall j | 0 <= j < |run| :: run[j].now <= run[j].written && run[j].inc >= 0)
    && (forall i, j | 0 <= i < j < |run| :: run[i].written <= run[j].now)
  }

  /** A key vanishes no sooner than its deadline. */
  predicate KeptUntilDeadline(c: Limits, run: seq<Arrival>) {
    forall j | 0 <= j < |run| && run[j].gone ::
      var s := Held(c, run[..j]); s.Some? && s.value.expireAt <= run[j].now
  }

  /** What was charged for the requests admitted among the arrivals `i..n`. */
  function Used(c: Limits, run: seq<Arrival>, i: nat, n: nat): int
    requires i <= n <= |run|
  {
    if i == n then 0
    else Used(c, run, i, n - 1) + if AdmitsAt(c, run, n - 1) then run[n - 1].inc else 0
  }

  /** The key was found vanished although the time it stood for was still to come. */
  predicate FoundEarly(c: Limits, run: seq<Arrival>, j: nat)
    requires j < |run|
  {
    var s := Held(c, run[..j]);
    run[j].gone && s.Some? && run[j].now < s.value.tat
  }

  /** By how much it vanished too early. */
  function LossAt(c: Limits, run: seq<Arrival>, j: nat): nat
    requires j < |run|
  {
    if FoundEarly(c, run, j) then Held(c, run[..j]).value.tat - run[j].now else 0
  }

  function Lost(c: Limits, run: seq<Arrival>, i: nat, n: nat): nat
    requires i <= n <= |run|
  {
    if i == n then 0 else Lost(c, run, i, n - 1) + LossAt(c, run, n - 1)
  }

  /** How often the key was found vanished too early among the arrivals `i..n`. */
  function EarlyExpiries(c: Limits, run: seq<Arrival>, i: nat, n: nat): nat
    requires i <= n <= |run|
  {
    if i == n then 0 else EarlyExpiries(c, run, i, n - 1) + if FoundEarly(c, run, n - 1) then 1 else 0
  }

  lemma HeldStep(c: Limits, run: seq<Arrival>, n: nat)
    requires n < |run|
    ensures Held(c, run[..n + 1]) == Step(c, Held(c, run[..n]), run[n])
  {
    assert run[..n + 1][..n] == run[..n];
  }

  lemma {:induction false} DeadlineClose(c: Limits, run: seq<Arrival>, n: nat)
    requires Clocked(run) && n <= |run|
    ensures var s := Held(c, run[..n]); s.Some? ==> s.value.tat < s.value.expireAt + 1_000_000
  {
    if n > 0 {
      DeadlineClose(c, run, n - 1);
      HeldStep(c, run, n - 1);
    }
  }

  /** What was charged for arrival `j`. */
  function ChargeAt(c: Limits, run: seq<Arrival>, j: nat): int
    requires j < |run|
  {
    if AdmitsAt(c, run, j) then run[j].inc else 0
  }

  /** What the admitted requests since arrival `i` imply, less what was lost to early expiries. */
  function Implied(c: Limits, run: seq<Arrival>, i: nat, n: nat): int
    requires i < n <= |run|
  {
    run[i].now + Used(c, run, i, n) - Lost(c, run, i + 1, n)
  }

  lemma ImpliedStep(c: Limits, run: seq<Arrival>, i: nat, n: nat)
    requires i < n < |run|
    ensures Implied(c, run, i, n + 1) == Implied(c, run, i, n) + ChargeAt(c, run, n) - LossAt(c, run, n)
  {
  }

  lemma ImpliedFirst(c: Limits, run: seq<Arrival>, i: nat)
    requires i < |run| && AdmitsAt(c, run, i)
    ensures Implied(c, run, i, i + 1) == run[i].now + run[i].inc
  {
    assert Used(c, run, i, i + 1) == Used(c, run, i, i) + run[i].inc;
    assert Lost(c, run, i + 1, i + 1) == 0;
  }

  lemma LevelAfter(c: Limits, run: seq<Arrival>, j: nat)
    requires Clocked(run) && j < |run|
    ensures Level(TatOf(Held(c, run[..j + 1])), run[j].now)
         == Level(Seen(Held(c, run[..j]), run[j]), run[j].now) + ChargeAt(c, run, j)
  {
    HeldStep(c, run, j);
  }

  /** How far the schedule stands after the first `n` arrivals. */
  function Ahead(c: Limits, run: seq<Arrival>, n: nat): int
    requires 0 < n <= |run|
  {
    Level(TatOf(Held(c, run[..n])), run[n - 1].now)
  }

  /** From one arrival to the next it falls only by what an early expiry loses. */
  lemma LevelKeeps(c: Limits, run: seq<Arrival>, j: nat)
    requires Clocked(run) && 0 < j < |run|
    ensures Level(Seen(Held(c, run[..j]), run[j]), run[j].now) >= Ahead(c, run, j) - LossAt(c, run, j)
  {
    assert run[j - 1].now <= run[j - 1].written <= run[j].now;
  }

  lemma AheadKeepsUp(c: Limits, run: seq<Arrival>, i: nat, n: nat)
    requires Clocked(run) && i < n < |run|
    ensures Ahead(c, run, n + 1) - Ahead(c, run, n) >= Implied(c, run, i, n + 1) - Implied(c, run, i, n)
  {
    LevelAfter(c, run, n);
    LevelKeeps(c, run, n);
    ImpliedStep(c, run, i, n);
  }

  lemma {:induction false} AheadAtLeast(c: Limits, run: seq<Arrival>, i: nat, n: nat)
    requires Clocked(run) && i < n <= |run| && AdmitsAt(c, run, i)
    ensures Ahead(c, run, n) >= Implied(c, run, i, n)
  {
    if n == i + 1 {
      LevelAfter(c, run, i);
      ImpliedFirst(c, run, i);
    } else {
      AheadAtLeast(c, run, i, n - 1);
      AheadKeepsUp(c, run, i, n - 1);
    }
  }

  /**
   The rate bound over a key that may vanish at any time, for whatever reason: every window of
   admitted requests fits the tolerance and what the vanishings in it lost.
   */
  lemma LossBound(c: Limits, run: seq<Arrival>, i: nat, j: nat)
    requires Clocked(run)
    requires i <= j < |run| && AdmitsAt(c, run, i) && AdmitsAt(c, run, j)
    ensures Used(c, run, i, j + 1) <= c.tolerance + (run[j].now - run[i].now) + Lost(c, run, i + 1, j + 1)
  {
    var s, a := Held(c, run[..j]), run[j];
    Kernel(c, Seen(s, a), a.now, a.inc);
    if i == j {
      ImpliedFirst(c, run, i);
    } else {
      AheadAtLeast(c, run, i, j);
      LevelKeeps(c, run, j);
      ImpliedStep(c, run, i, j);
    }
    assert Implied(c, run, i, j + 1) <= a.now + c.tolerance;
  }

  lemma LossSmall(c: Limits, run: seq<Arrival>, j: nat)
    requires Clocked(run) && KeptUntilDeadline(c, run) && j < |run|
    ensures LossAt(c, run, j) <= if FoundEarly(c, run, j) then 1_000_000 else 0
  {
    DeadlineClose(c, run, j);
  }

  lemma {:induction false} LostSmall(c: Limits, run: seq<Arrival>, i: nat, n: nat)
    requires Clocked(run) && KeptUntilDeadline(c, run) && i <= n <= |run|
    ensures Lost(c, run, i, n) <= 1_000_000 * EarlyExpiries(c, run, i, n)
  {
    if i < n {
      LostSmall(c, run, i, n - 1);
      LossSmall(c, run, n - 1);
    }
  }

  /**
   Over a key that expires, the allowance is one millisecond for each time the key was found
   vanished too early within the window.
   */
  lemma ExpiryDrift(c: Limits, run: seq<Arrival>, i: nat, j: nat)
    requires Clocked(run) && KeptUntilDeadline(c, run)
    requires i <= j < |run| && AdmitsAt(c, run, i) && AdmitsAt(c, run, j)
    ensures Used(c, run, i, j + 1)
         <= c.tolerance + (run[j].now - run[i].now) + 1_000_000 * EarlyExpiries(c, run, i + 1, j + 1)
  {
    LossBound(c, run, i, j);
    LostSmall(c, run, i + 1, j + 1);
  }

  /** The key vanishes only once the time it stands for has come. */
  predicate KeptUntilTat(c: Limits, run: seq<Arrival>) {
    forall j | 0 <= j < |run| && run[j].gone ::
      var s := Held(c, run[..j]); s.Some? && s.value.tat <= run[j].now
  }

  /** The same requests over a key that never expires. */
  function ArrivalRequests(run: seq<Arrival>): seq<Request> {
    seq(|run|, i requires 0 <= i < |run| => Request(run[i].now, run[i].inc))
  }

  /** A key that vanishes once its time has come leaves nothing to miss. */
  lemma VanishAlike(s: Option<Cell>, stored: Option<int>, before: int, a: Arrival)
    requires Alike(TatOf(s), stored, before) && before <= a.now
    requires a.gone ==> s.Some? && s.value.tat <= a.now
    ensures Alike(Seen(s, a), stored, a.now)
  {
  }

  lemma StepAlike(c: Limits, s: Option<Cell>, stored: Option<int>, a: Arrival)
    requires Alike(Seen(s, a), stored, a.now)
    ensures SameAnswer(c, a.inc, Judge(c, Seen(s, a), a.now, a.inc), Judge(c, stored, a.now, a.inc))
    ensures Alike(TatOf(Step(c, s, a)), After(c, stored, a.now, a.inc), a.now)
    ensures Admits(c, s, a) ==> TatOf(Step(c, s, a)) == After(c, stored, a.now, a.inc)
  {
  }

  lemma ArrivalRequestsStep(c: Limits, run: seq<Arrival>, n: nat)
    requires n < |run|
    ensures Stored(c, None, ArrivalRequests(run)[..n + 1])
         == After(c, Stored(c, None, ArrivalRequests(run)[..n]), run[n].now, run[n].inc)
  {
    assert ArrivalRequests(run)[..n + 1][..n] == ArrivalRequests(run)[..n];
  }

  lemma {:induction false} ExactExpiryAlike(c: Limits, run: seq<Arrival>, n: nat)
    requires Clocked(run) && KeptUntilTat(c, run) && n < |run|
    ensures Alike(Seen(Held(c, run[..n]), run[n]), Stored(c, None, ArrivalRequests(run)[..n]), run[n].now)
  {
    var s, stored := Held(c, run[..n]), Stored(c, None, ArrivalRequests(run)[..n]);
    if n == 0 {
      assert run[..0] == [] && ArrivalRequests(run)[..0] == [];
    } else {
      ExactExpiryAlike(c, run, n - 1);
      HeldStep(c, run, n - 1);
      ArrivalRequestsStep(c, run, n - 1);
      StepAlike(c, Held(c, run[..n - 1]), Stored(c, None, ArrivalRequests(run)[..n - 1]), run[n - 1]);
      assert run[n - 1].now <= run[n - 1].written <= run[n].now;
      VanishAlike(s, stored, run[n - 1].now, run[n]);
    }
  }

  /** Expiry exactly when the stored time comes changes nothing: decisions, `retry_after` and values written are those of the store that never expires. */
  lemma ExactExpiryIsInvisible(c: Limits, run: seq<Arrival>, j: nat)
    requires Clocked(run) && KeptUntilTat(c, run) && j < |run|
    ensures var rs := ArrivalRequests(run);
            var seen, inc := Seen(Held(c, run[..j]), run[j]), run[j].inc;
            && SameAnswer(c, inc, Judge(c, seen, run[j].now, inc), VerdictAt(c, None, rs, j))
            && (AdmitsAt(c, run, j) ==> TatOf(Held(c, run[..j + 1])) == Stored(c, None, rs[..j + 1]))
  {
    ExactExpiryAlike(c, run, j);
    HeldStep(c, run, j);
    ArrivalRequestsStep(c, run, j);
    StepAlike(c, Held(c, run[..j]), Stored(c, None, ArrivalRequests(run)[..j]), run[j]);
  }

  lemma LastIsLatest(run: seq<Arrival>, now: int)
    requires Clocked(run) && (run != [] ==> run[|run| - 1].written <= now)
    ensures forall k | 0 <= k < |run| :: run[k].written <= now
  {
  }

  /** A run goes on with an arrival later than it. */
  lemma RunAppend(c: Limits, run: seq<Arrival>, a: Arrival)
    requires Clocked(run) && KeptUntilDeadline(c, run)
    requires a.now <= a.written && a.inc >= 0
    requires forall k | 0 <= k < |run| :: run[k].written <= a.now
    requires a.gone ==> var s := Held(c, run); s.Some? && s.value.expireAt <= a.now
    ensures Clocked(run + [a]) && KeptUntilDeadline(c, run + [a])
    ensures Held(c, run + [a]) == Step(c, Held(c, run), a)
  {
    var run' := run + [a];
    assert run'[..|run|] == run;
    forall j | 0 <= j < |run'| && run'[j].gone
      ensures var s := Held(c, run'[..j]); s.Some? && s.value.expireAt <= run'[j].now
    {
      if j < |run| {
        assert run'[..j] == run[..j] && run[j].gone;
      }
    }
  }
}
