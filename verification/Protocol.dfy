/**
 Any number of calls contending for one key of a store that never expires. A turn takes one call
 through its next access to the store: the read, or the conditional write. Turns come in any order.
 */
module Protocol {
  import opened Prelude
  import opened Gcra
  import opened Codec
  import opened Loop

  /** A call: what it is charged, where it stands, and how many updates had landed at its first and its latest read. */
  datatype Call = Call(inc: int, phase: Phase, start: nat, mark: nat)

  /** A call that has been answered, at the point where its answer took effect. */
  datatype Completion = Completion(id: nat, now: int, inc: int, verdict: Verdict)

  datatype System = System(cell: Option<u64>, calls: map<nat, Call>, history: seq<Completion>)

  /** How a store answers a conditional write; the two stores differ on a missing key. */
  datatype Kind = Permissive | Strict

  function Write(kind: Kind, cell: Option<u64>, seen: Option<u64>, value: u64): (Option<u64>, bool) {
    match seen
    case None => if cell.Some? then (cell, false) else (Some(value), true)
    case Some(v) =>
      if cell.Some? then (if cell.value == v then (Some(value), true) else (cell, false))
      else if kind.Permissive? then (Some(value), true)
      else (cell, false)
  }

  /** The updates among the completions. */
  function Updates(h: seq<Completion>): seq<Completion> {
    if h == [] then []
    else Updates(h[..|h| - 1]) + if h[|h| - 1].verdict.limited then [] else [h[|h| - 1]]
  }

  function Read(c: Limits, s: System, id: nat, now: int): System
    requires id in s.calls && s.calls[id].phase.Ready?
  {
    var k := s.calls[id];
    var p := OnRead(c, k.inc, k.phase.i, s.cell, now);
    var landed := |Updates(s.history)|;
    var k' := Call(k.inc, p, if k.phase.i == 0 then landed else k.start, landed);
    System(s.cell, s.calls[id := k'],
           if p.Done? && p.result.Ok? then s.history + [Completion(id, now, k.inc, p.result.value)] else s.history)
  }

  function TryWrite(c: Limits, kind: Kind, s: System, id: nat): System
    requires id in s.calls && s.calls[id].phase.Holding?
  {
    var k := s.calls[id];
    var (cell, ok) := Write(kind, s.cell, k.phase.seen, Proposal(c, k.inc, k.phase.seen, k.phase.now));
    var p := OnUpdate(c, k.inc, k.phase, ok);
    System(cell, s.calls[id := k.(phase := p)],
           if ok then s.history + [Completion(id, k.phase.now, k.inc, p.result.value)] else s.history)
  }

  /** A turn: which call moves, and what the clock shows should it read. */
  datatype Turn = Turn(id: nat, now: int)

  function Next(c: Limits, kind: Kind, s: System, t: Turn): System {
    if t.id !in s.calls then s
    else match s.calls[t.id].phase
      case Ready(_) => Read(c, s, t.id, t.now)
      case Holding(_, _, _) => TryWrite(c, kind, s, t.id)
      case Done(_) => s
  }

  function Exec(c: Limits, kind: Kind, s: System, turns: seq<Turn>): System {
    if turns == [] then s
    else Next(c, kind, Exec(c, kind, s, turns[..|turns| - 1]), turns[|turns| - 1])
  }

  /** All calls still to be made, on a key holding anything. */
  predicate Initial(s: System) {
    s.history == [] && forall id | id in s.calls :: s.calls[id].phase == Ready(0)
  }

  /** The key after a sequential run of completed calls, each carried out alone. */
  function Sequential(c: Limits, cell: Option<u64>, h: seq<Completion>): Option<u64> {
    if h == [] then cell
    else
      var e, before := h[|h| - 1], Sequential(c, cell, h[..|h| - 1]);
      if Blocked(c, View(before), e.now, e.inc) then before else Some(Proposal(c, e.inc, before, e.now))
  }

  /** Every answer is the one the sequential run gives. */
  ghost predicate Legal(c: Limits, cell: Option<u64>, h: seq<Completion>) {
    forall k | 0 <= k < |h| ::
      h[k].verdict == Judge(c, View(Sequential(c, cell, h[..k])), h[k].now, h[k].inc)
  }

  ghost predicate Listed(h: seq<Completion>, id: nat) {
    exists k | 0 <= k < |h| :: h[k].id == id
  }

  /** The completions and the calls answer for each other, one to one. */
  ghost predicate Accounted(s: System) {
    && (forall k | 0 <= k < |s.history| ::
          var e := s.history[k];
          e.id in s.calls && s.calls[e.id].phase == Done(Ok(e.verdict)) && s.calls[e.id].inc == e.inc)
    && (forall j, k | 0 <= j < k < |s.history| :: s.history[j].id != s.history[k].id)
    && (forall id | id in s.calls && s.calls[id].phase.Done? && s.calls[id].phase.result.Ok? :: Listed(s.history, id))
  }

  /** Where a call stands, against the number of updates landed so far. */
  predicate Tracked(c: Limits, k: Call, cell: Option<u64>, landed: nat) {
    match k.phase
    case Ready(i) => i <= MAX_CAS_ATTEMPTS && (i > 0 ==> k.start + i <= landed)
    case Holding(i, seen, now) =>
      && i <= MAX_CAS_ATTEMPTS
      && k.start + i <= k.mark <= landed
      && !Blocked(c, View(seen), now, k.inc)
      && (seen.Some? ==> cell.Some?)
      && (k.mark == landed ==> cell == seen)
    case Done(r) => r.Ok? || (r.error == FailedToUpdate && k.start + MAX_CAS_ATTEMPTS + 1 <= landed)
  }

  ghost predicate Invariant(c: Limits, cell0: Option<u64>, s: System) {
    && s.cell == Sequential(c, cell0, s.history)
    && Legal(c, cell0, s.history)
    && Accounted(s)
    && forall id | id in s.calls :: Tracked(c, s.calls[id], s.cell, |Updates(s.history)|)
  }

  lemma UpdatesAppend(h: seq<Completion>, e: Completion)
    ensures Updates(h + [e]) == Updates(h) + if e.verdict.limited then [] else [e]
  {
  }

  lemma LegalAppend(c: Limits, cell: Option<u64>, h: seq<Completion>, e: Completion)
    requires Legal(c, cell, h)
    requires e.verdict == Judge(c, View(Sequential(c, cell, h)), e.now, e.inc)
    ensures Legal(c, cell, h + [e])
    ensures Sequential(c, cell, h + [e])
         == if e.verdict.limited then Sequential(c, cell, h)
            else Some(Proposal(c, e.inc, Sequential(c, cell, h), e.now))
  {
    var h' := h + [e];
    assert h'[..|h|] == h;
    forall k | 0 <= k < |h'|
      ensures h'[k].verdict == Judge(c, View(Sequential(c, cell, h'[..k])), h'[k].now, h'[k].inc)
    {
      if k < |h| {
        assert h'[..k] == h[..k];
      }
    }
  }

  lemma AccountedAppend(s: System, id: nat, k': Call, cell: Option<u64>, e: Completion)
    requires Accounted(s) && id in s.calls && !s.calls[id].phase.Done?
    requires e.id == id && k'.phase == Done(Ok(e.verdict)) && k'.inc == e.inc
    ensures Accounted(System(cell, s.calls[id := k'], s.history + [e]))
  {
    var h' := s.history + [e];
    assert h'[|s.history|].id == id;
    assert Listed(h', id);
    forall other | Listed(s.history, other) ensures Listed(h', other) {
      var k :| 0 <= k < |s.history| && s.history[k].id == other;
      assert h'[k].id == other;
    }
  }

  lemma AccountedChange(s: System, id: nat, k': Call, cell: Option<u64>)
    requires Accounted(s) && id in s.calls && !s.calls[id].phase.Done?
    requires k'.phase.Done? ==> k'.phase.result.Err?
    ensures Accounted(System(cell, s.calls[id := k'], s.history))
  {
  }

  lemma ReadKeepsInvariant(c: Limits, cell0: Option<u64>, s: System, id: nat, now: int)
    requires Invariant(c, cell0, s) && id in s.calls && s.calls[id].phase.Ready?
    ensures Invariant(c, cell0, Read(c, s, id, now))
  {
    var s' := Read(c, s, id, now);
    var k, k' := s.calls[id], s'.calls[id];
    assert Tracked(c, k, s.cell, |Updates(s.history)|);
    if k'.phase.Done? {
      var e := Completion(id, now, k.inc, k'.phase.result.value);
      UpdatesAppend(s.history, e);
      LegalAppend(c, cell0, s.history, e);
      AccountedAppend(s, id, k', s.cell, e);
    } else {
      AccountedChange(s, id, k', s.cell);
    }
  }

  /** An update that lands moves everyone's count, and outdates what the others hold. */
  lemma TrackedThroughUpdate(c: Limits, k: Call, cell: Option<u64>, value: u64, landed: nat)
    requires Tracked(c, k, cell, landed)
    ensures Tracked(c, k, Some(value), landed + 1)
  {
  }

  lemma LandingKeepsInvariant(c: Limits, cell0: Option<u64>, kind: Kind, s: System, id: nat)
    requires Invariant(c, cell0, s) && id in s.calls && s.calls[id].phase.Holding?
    requires s.cell == s.calls[id].phase.seen
    ensures Invariant(c, cell0, TryWrite(c, kind, s, id))
  {
    var s' := TryWrite(c, kind, s, id);
    var k, k' := s.calls[id], s'.calls[id];
    var landed := |Updates(s.history)|;
    assert Tracked(c, k, s.cell, landed);
    var e := Completion(id, k.phase.now, k.inc, k'.phase.result.value);
    UpdatesAppend(s.history, e);
    LegalAppend(c, cell0, s.history, e);
    AccountedAppend(s, id, k', s'.cell, e);
    forall other | other in s'.calls ensures Tracked(c, s'.calls[other], s'.cell, landed + 1) {
      TrackedThroughUpdate(c, s.calls[other], s.cell, s'.cell.value, landed);
    }
  }

  lemma FailureKeepsInvariant(c: Limits, cell0: Option<u64>, kind: Kind, s: System, id: nat)
    requires Invariant(c, cell0, s) && id in s.calls && s.calls[id].phase.Holding?
    requires s.cell != s.calls[id].phase.seen
    ensures Invariant(c, cell0, TryWrite(c, kind, s, id))
  {
    var s' := TryWrite(c, kind, s, id);
    var k' := s'.calls[id];
    var landed := |Updates(s.history)|;
    assert Tracked(c, s.calls[id], s.cell, landed);
    AccountedChange(s, id, k', s.cell);
    assert s' == System(s.cell, s.calls[id := k'], s.history);
    assert Tracked(c, k', s.cell, landed);
  }

  lemma WriteKeepsInvariant(c: Limits, cell0: Option<u64>, kind: Kind, s: System, id: nat)
    requires Invariant(c, cell0, s) && id in s.calls && s.calls[id].phase.Holding?
    ensures Invariant(c, cell0, TryWrite(c, kind, s, id))
  {
    if s.cell == s.calls[id].phase.seen {
      LandingKeepsInvariant(c, cell0, kind, s, id);
    } else {
      FailureKeepsInvariant(c, cell0, kind, s, id);
    }
  }

  lemma NextKeepsInvariant(c: Limits, cell0: Option<u64>, kind: Kind, s: System, t: Turn)
    requires Invariant(c, cell0, s)
    ensures Invariant(c, cell0, Next(c, kind, s, t))
  {
    if t.id in s.calls {
      if s.calls[t.id].phase.Ready? {
        ReadKeepsInvariant(c, cell0, s, t.id, t.now);
      } else if s.calls[t.id].phase.Holding? {
        WriteKeepsInvariant(c, cell0, kind, s, t.id);
      }
    }
  }

  /** No call comes, goes or changes what it asks for. */
  predicate SameCalls(calls: map<nat, Call>, calls': map<nat, Call>) {
    calls'.Keys == calls.Keys && forall id | id in calls :: calls'[id].inc == calls[id].inc
  }

  lemma {:induction false} ExecKeepsCalls(c: Limits, kind: Kind, s: System, turns: seq<Turn>)
    ensures SameCalls(s.calls, Exec(c, kind, s, turns).calls)
  {
    if turns != [] {
      ExecKeepsCalls(c, kind, s, turns[..|turns| - 1]);
    }
  }

  lemma {:induction false} ExecKeepsInvariant(c: Limits, kind: Kind, s: System, turns: seq<Turn>)
    requires Initial(s)
    ensures Invariant(c, s.cell, Exec(c, kind, s, turns))
  {
    if turns != [] {
      var n := |turns| - 1;
      ExecKeepsInvariant(c, kind, s, turns[..n]);
      NextKeepsInvariant(c, s.cell, kind, Exec(c, kind, s, turns[..n]), turns[n]);
    }
  }

  /**
   Linearisation. In every interleaving, the completed calls in the order they took effect are a
   sequential run of the limiter from the initial value: it leaves what the key holds and gives
   every completed call, admitted or limited, its answer. Each of them figures in it exactly once;
   calls that failed or are under way do not figure in it, so the key owes them nothing.
   */
  lemma Linearisable(c: Limits, kind: Kind, s: System, turns: seq<Turn>)
    requires Initial(s)
    ensures var e := Exec(c, kind, s, turns);
            && e.cell == Sequential(c, s.cell, e.history)
            && Legal(c, s.cell, e.history)
            && Accounted(e) && SameCalls(s.calls, e.calls)
  {
    ExecKeepsInvariant(c, kind, s, turns);
    ExecKeepsCalls(c, kind, s, turns);
  }

  lemma {:induction false} HistoryGrows(c: Limits, kind: Kind, s: System, turns: seq<Turn>, n: nat)
    requires n <= |turns|
    ensures Exec(c, kind, s, turns[..n]).history <= Exec(c, kind, s, turns).history
  {
    if n < |turns| {
      var front := turns[..|turns| - 1];
      HistoryGrows(c, kind, s, front, n);
      assert front[..n] == turns[..n];
    } else {
      assert turns[..n] == turns;
    }
  }

  lemma {:induction false} DoneStays(c: Limits, kind: Kind, s: System, turns: seq<Turn>, n: nat, id: nat)
    requires n <= |turns|
    requires var m := Exec(c, kind, s, turns[..n]).calls; id in m && m[id].phase.Done?
    ensures var m, e := Exec(c, kind, s, turns[..n]).calls, Exec(c, kind, s, turns).calls;
            id in e && e[id].phase == m[id].phase
  {
    if n < |turns| {
      var front := turns[..|turns| - 1];
      assert front[..n] == turns[..n];
      DoneStays(c, kind, s, front, n, id);
    } else {
      assert turns[..n] == turns;
    }
  }

  /**
   The sequential run keeps the order of real time: a call answered by some point of the schedule
   comes before every call not yet answered then, and so before every call that had not begun.
   */
  lemma RealTimeOrder(c: Limits, kind: Kind, s: System, turns: seq<Turn>, n: nat, j: nat, k: nat)
    requires Initial(s) && n <= |turns|
    requires var h := Exec(c, kind, s, turns).history; j < |h| && k < |h|
    requires var h, m := Exec(c, kind, s, turns).history, Exec(c, kind, s, turns[..n]);
             && h[j].id in m.calls && m.calls[h[j].id].phase.Done?
             && h[k].id in m.calls && !m.calls[h[k].id].phase.Done?
    ensures j < k
  {
    var h, m := Exec(c, kind, s, turns).history, Exec(c, kind, s, turns[..n]);
    HistoryGrows(c, kind, s, turns, n);
    ExecKeepsInvariant(c, kind, s, turns);
    ExecKeepsInvariant(c, kind, s, turns[..n]);
    DoneStays(c, kind, s, turns, n, h[j].id);
    assert Listed(m.history, h[j].id);
    var i :| 0 <= i < |m.history| && m.history[i].id == h[j].id;
    assert forall x | 0 <= x < |m.history| :: h[x] == m.history[x];
  }

  /** The two stores' conditional writes agree on everything the calls ever ask, so runs over them are the same. */
  lemma {:induction false} StoresAgree(c: Limits, s: System, turns: seq<Turn>)
    requires Initial(s)
    ensures Exec(c, Permissive, s, turns) == Exec(c, Strict, s, turns)
  {
    if turns != [] {
      var n := |turns| - 1;
      StoresAgree(c, s, turns[..n]);
      ExecKeepsInvariant(c, Strict, s, turns[..n]);
      var m, t := Exec(c, Strict, s, turns[..n]), turns[n];
      if t.id in m.calls && m.calls[t.id].phase.Holding? {
        assert Tracked(c, m.calls[t.id], m.cell, |Updates(m.history)|);
      }
    }
  }
}
