/** What contention can and cannot do: who makes an update fail, when a call gives up, and the rate bound that survives it. */
module Contention {
  import opened Prelude
  import opened Gcra
  import opened Codec
  import opened Loop
  import opened Trace
  import opened Protocol

  // ---- Rivals ---------------------------------------------------------------------------------

  /** Completions by as many calls. */
  ghost predicate DistinctIds(u: seq<Completion>) {
    forall j, k | 0 <= j < k < |u| :: u[j].id != u[k].id
  }

  lemma {:induction false} UpdatesOccur(h: seq<Completion>, j: nat)
    requires j < |Updates(h)|
    ensures exists k | 0 <= k < |h| :: h[k] == Updates(h)[j] && !h[k].verdict.limited
  {
    var n := |h| - 1;
    if j < |Updates(h[..n])| {
      UpdatesOccur(h[..n], j);
      var k :| 0 <= k < n && h[..n][k] == Updates(h[..n])[j] && !h[..n][k].verdict.limited;
      assert h[k] == Updates(h)[j];
    } else {
      assert h[n] == Updates(h)[j];
    }
  }

  lemma {:induction false} UpdatesDistinct(h: seq<Completion>)
    requires DistinctIds(h)
    ensures DistinctIds(Updates(h))
  {
    if h != [] {
      var n := |h| - 1;
      UpdatesDistinct(h[..n]);
      var u := Updates(h[..n]);
      forall j | 0 <= j < |u| ensures u[j].id != h[n].id {
        UpdatesOccur(h[..n], j);
      }
    }
  }

  lemma {:induction false} CountIds(u: seq<Completion>, ids: set<nat>)
    requires DistinctIds(u) && forall k | 0 <= k < |u| :: u[k].id in ids
    ensures |u| <= |ids|
  {
    if u != [] {
      var n := |u| - 1;
      CountIds(u[..n], ids - {u[n].id});
    }
  }

  /** The updates landed from position `from` on: distinct calls other than `id`, each of them admitted. */
  ghost predicate Rivals(s: System, id: nat, from: nat) {
    var u := Updates(s.history);
    && from <= |u|
    && DistinctIds(u[from..])
    && forall k | from <= k < |u| ::
         u[k].id in s.calls && u[k].id != id && s.calls[u[k].id].phase == Done(Ok(u[k].verdict)) && !u[k].verdict.limited
  }

  /** No update is by a call that has not been answered. */
  lemma OthersUpdates(s: System, id: nat, from: nat)
    requires Accounted(s) && id in s.calls && from <= |Updates(s.history)|
    requires s.calls[id].phase.Done? ==> s.calls[id].phase.result.Err?
    ensures Rivals(s, id, from)
  {
    var u := Updates(s.history);
    UpdatesDistinct(s.history);
    forall k | from <= k < |u|
      ensures u[k].id in s.calls && u[k].id != id
      ensures s.calls[u[k].id].phase == Done(Ok(u[k].verdict)) && !u[k].verdict.limited
    {
      UpdatesOccur(s.history, k);
    }
  }

  /**
   An update fails if and only if the value it was computed from has been replaced, and then by
   rival updates that landed since the call read it.
   */
  lemma FailedUpdateHasRivals(c: Limits, kind: Kind, s: System, turns: seq<Turn>, id: nat)
    requires Initial(s)
    requires var m := Exec(c, kind, s, turns); id in m.calls && m.calls[id].phase.Holding?
    ensures var m := Exec(c, kind, s, turns);
            var k, k' := m.calls[id], TryWrite(c, kind, m, id).calls[id];
            var failed := !(k'.phase.Done? && k'.phase.result.Ok?);
            && (failed <==> m.cell != k.phase.seen)
            && (failed ==> k.mark < |Updates(m.history)| && Rivals(m, id, k.mark))
  {
    ExecKeepsInvariant(c, kind, s, turns);
    var m := Exec(c, kind, s, turns);
    assert Tracked(c, m.calls[id], m.cell, |Updates(m.history)|);
    OthersUpdates(m, id, m.calls[id].mark);
  }

  /**
   A call that ends in error does so for contention, with at least six updates landed since its
   first read, all by other calls and no two by the same. This holds from the turn it fails.
   */
  lemma SixRivals(c: Limits, kind: Kind, s: System, turns: seq<Turn>, id: nat)
    requires Initial(s) && id in s.calls
    requires var k := Exec(c, kind, s, turns).calls; id in k && k[id].phase.Done? && k[id].phase.result.Err?
    ensures var m := Exec(c, kind, s, turns);
            && m.calls[id].phase.result == Err(FailedToUpdate)
            && |Updates(m.history)| >= m.calls[id].start + 6
            && Rivals(m, id, m.calls[id].start)
            && |s.calls| >= 7
  {
    ExecKeepsInvariant(c, kind, s, turns);
    var m := Exec(c, kind, s, turns);
    assert Tracked(c, m.calls[id], m.cell, |Updates(m.history)|);
    var from := m.calls[id].start;
    ExecKeepsCalls(c, kind, s, turns);
    OthersUpdates(m, id, from);
    CountIds(Updates(m.history)[from..], m.calls.Keys - {id});
  }

  /** So among six calls or fewer none ever fails. */
  lemma SixCallsNeverFail(c: Limits, kind: Kind, s: System, turns: seq<Turn>, id: nat)
    requires Initial(s) && |s.calls| <= 6 && id in s.calls
    ensures var m := Exec(c, kind, s, turns);
            id in m.calls && (m.calls[id].phase.Done? ==> m.calls[id].phase.result.Ok?)
  {
    ExecKeepsCalls(c, kind, s, turns);
    var k := Exec(c, kind, s, turns).calls[id];
    if k.phase.Done? && k.phase.result.Err? {
      SixRivals(c, kind, s, turns, id);
    }
  }

  // ---- Termination ----------------------------------------------------------------------------

  function TurnsOf(turns: seq<Turn>, id: nat): nat {
    if turns == [] then 0
    else TurnsOf(turns[..|turns| - 1], id) + if turns[|turns| - 1].id == id then 1 else 0
  }

  /** A call that is not done has used every one of its turns for one of its twelve accesses. */
  lemma {:induction false} TurnsUsed(c: Limits, kind: Kind, s: System, turns: seq<Turn>, id: nat)
    requires Initial(s) && id in s.calls
    ensures var k := Exec(c, kind, s, turns).calls;
            && id in k
            && match k[id].phase
               case Ready(i) => TurnsOf(turns, id) == 2 * i
               case Holding(i, _, _) => TurnsOf(turns, id) == 2 * i + 1
               case Done(_) => true
  {
    if turns != [] {
      TurnsUsed(c, kind, s, turns[..|turns| - 1], id);
    }
  }

  /** Whatever the others do, a call is over after twelve turns of its own: six reads and six updates. */
  lemma DoneInTwelveTurns(c: Limits, kind: Kind, s: System, turns: seq<Turn>, id: nat)
    requires Initial(s) && id in s.calls && TurnsOf(turns, id) >= 12
    ensures var k := Exec(c, kind, s, turns).calls; id in k && k[id].phase.Done?
  {
    TurnsUsed(c, kind, s, turns, id);
    ExecKeepsInvariant(c, kind, s, turns);
    var m := Exec(c, kind, s, turns);
    assert Tracked(c, m.calls[id], m.cell, |Updates(m.history)|);
  }

  // ---- The rate bound -------------------------------------------------------------------------

  function HistoryRequests(h: seq<Completion>): seq<Request> {
    seq(|h|, i requires 0 <= i < |h| => Request(h[i].now, h[i].inc))
  }

  /** Every clock reading in use is in range, every charge nonnegative. */
  ghost predicate Sensible(c: Limits, s: System) {
    && (forall id | id in s.calls :: s.calls[id].inc >= 0)
    && (forall id | id in s.calls && s.calls[id].phase.Holding? :: InRange(c, s.calls[id].phase.now))
    && (forall k | 0 <= k < |s.history| :: InRange(c, s.history[k].now) && s.history[k].inc >= 0)
  }

  lemma {:induction false} ExecSensible(c: Limits, kind: Kind, s: System, turns: seq<Turn>)
    requires Initial(s) && Sensible(c, s)
    requires forall k | 0 <= k < |turns| :: InRange(c, turns[k].now)
    ensures Sensible(c, Exec(c, kind, s, turns))
  {
    if turns != [] {
      ExecSensible(c, kind, s, turns[..|turns| - 1]);
      assert InRange(c, turns[|turns| - 1].now);
    }
  }

  lemma StepIsTrace(c: Limits, before: Option<u64>, now: int, inc: int)
    requires InRange(c, now) && inc >= 0
    ensures var after := if Blocked(c, View(before), now, inc) then before else Some(Proposal(c, inc, before, now));
            View(after) == After(c, View(before), now, inc)
  {
  }

  lemma LegalPrefix(c: Limits, cell: Option<u64>, h: seq<Completion>)
    requires Legal(c, cell, h) && h != []
    ensures var n := |h| - 1;
            && Legal(c, cell, h[..n])
            && h[n].verdict == Judge(c, View(Sequential(c, cell, h[..n])), h[n].now, h[n].inc)
  {
    var front := h[..|h| - 1];
    forall k | 0 <= k < |front|
      ensures front[k].verdict == Judge(c, View(Sequential(c, cell, front[..k])), front[k].now, front[k].inc)
    {
      assert front[..k] == h[..k];
    }
  }

  lemma HistoryRequestsAppend(h: seq<Completion>, e: Completion)
    ensures HistoryRequests(h + [e]) == HistoryRequests(h) + [Request(e.now, e.inc)]
  {
  }

  lemma HistoryRequestsStep(h: seq<Completion>)
    requires h != []
    ensures var n := |h| - 1;
            HistoryRequests(h)[..n] == HistoryRequests(h[..n]) && HistoryRequests(h)[n] == Request(h[n].now, h[n].inc)
  {
  }

  /** Without the encoding of times: the completions as a run of the kernel, the updates its admitted requests. */
  lemma {:induction false} HistoryIsTrace(c: Limits, cell: Option<u64>, h: seq<Completion>)
    requires Legal(c, cell, h)
    requires forall k | 0 <= k < |h| :: InRange(c, h[k].now) && h[k].inc >= 0
    ensures View(Sequential(c, cell, h)) == Stored(c, View(cell), HistoryRequests(h))
    ensures HistoryRequests(Updates(h)) == Admitted(c, View(cell), HistoryRequests(h))
  {
    if h != [] {
      var n := |h| - 1;
      var front, e := h[..n], h[n];
      LegalPrefix(c, cell, h);
      HistoryIsTrace(c, cell, front);
      StepIsTrace(c, Sequential(c, cell, front), e.now, e.inc);
      HistoryRequestsStep(h);
      TraceStep(c, View(cell), HistoryRequests(h));
      HistoryRequestsAppend(Updates(front), e);
    }
  }

  /**
   The rate bound under contention: in every interleaving, what was charged for consecutive
   updates fits the tolerance over the time between the readings of the clock they were based on,
   though those readings need not be in order.
   */
  lemma WindowBoundUnderContention(c: Limits, kind: Kind, s: System, turns: seq<Turn>, i: nat, j: nat)
    requires Initial(s) && Sensible(c, s)
    requires forall k | 0 <= k < |turns| :: InRange(c, turns[k].now)
    requires i <= j < |Updates(Exec(c, kind, s, turns).history)|
    ensures WindowFits(c, HistoryRequests(Updates(Exec(c, kind, s, turns).history)), i, j)
  {
    var m := Exec(c, kind, s, turns);
    ExecKeepsInvariant(c, kind, s, turns);
    ExecSensible(c, kind, s, turns);
    HistoryIsTrace(c, s.cell, m.history);
    WindowBound(c, View(s.cell), HistoryRequests(m.history), i, j);
  }

  /** And on a key that starts absent, what it holds is the closed form over the updates that landed. */
  lemma ClosedFormUnderContention(c: Limits, kind: Kind, s: System, turns: seq<Turn>)
    requires Initial(s) && Sensible(c, s) && s.cell == None
    requires forall k | 0 <= k < |turns| :: InRange(c, turns[k].now)
    ensures var m := Exec(c, kind, s, turns);
            var u := HistoryRequests(Updates(m.history));
            if u == [] then m.cell == None else m.cell.Some? && IsPeak(u, m.cell.value)
  {
    var m := Exec(c, kind, s, turns);
    ExecKeepsInvariant(c, kind, s, turns);
    ExecSensible(c, kind, s, turns);
    HistoryIsTrace(c, s.cell, m.history);
    ClosedForm(c, HistoryRequests(m.history));
    ViewIsIdentity(m.cell);
  }
}
