/** Six calls never fail for contention (`Contention.SixCallsNeverFail`); a schedule of seven under which one does. */
module SevenCalls {
  import opened Prelude
  import opened Gcra
  import opened Codec
  import opened Loop
  import opened Protocol

  /** Six updates in turn, each between a read and a write of the call 0. */
  function Round(k: nat): seq<Turn> {
    [Turn(0, 0), Turn(k + 1, 0), Turn(k + 1, 0), Turn(0, 0)]
  }

  function Rounds(k: nat): seq<Turn> {
    if k == 0 then [] else Rounds(k - 1) + Round(k - 1)
  }

  const SECOND: Limits := Limits(1_000_000_000, 7_000_000_000, 7)

  /** Seven calls for one request each, at the same instant, on an absent key. */
  const SEVEN: System :=
    System(None, map id: nat | id < 7 :: Call(1_000_000_000, Ready(0), 0, 0), [])

  /** What the key holds after `k` requests at the instant 0. */
  function CellAfter(k: nat): Option<u64>
    requires k <= 7
  {
    if k == 0 then None else Some(k * 1_000_000_000)
  }

  lemma CellAfterStep(k: nat)
    requires k <= 6
    ensures !Blocked(SECOND, View(CellAfter(k)), 0, 1_000_000_000)
    ensures Proposal(SECOND, 1_000_000_000, CellAfter(k), 0) == (k + 1) * 1_000_000_000
  {
    ViewIsIdentity(CellAfter(k));
    NanosecondsWraps((k + 1) * 1_000_000_000);
  }

  /** After `k` rounds the call 0 has failed `k` times, and the calls above `k` have yet to begin. */
  predicate AfterRounds(s: System, k: nat) {
    && k <= MAX_CAS_ATTEMPTS + 1
    && s.cell == CellAfter(k)
    && (forall id: nat | id < 7 :: id in s.calls && s.calls[id].inc == 1_000_000_000)
    && (forall id: nat | k < id < 7 :: s.calls[id].phase == Ready(0))
    && s.calls[0].phase == (if k <= MAX_CAS_ATTEMPTS then Ready(k) else Done(Err(FailedToUpdate)))
  }

  lemma ExecAppend(c: Limits, kind: Kind, s: System, turns: seq<Turn>, more: seq<Turn>)
    ensures Exec(c, kind, s, turns + more) == Exec(c, kind, Exec(c, kind, s, turns), more)
  {
    if more == [] {
      assert turns + more == turns;
    } else {
      var n := |more| - 1;
      ExecAppend(c, kind, s, turns, more[..n]);
      assert (turns + more)[..|turns| + n] == turns + more[..n];
    }
  }

  /** Only call `id` has moved, and asks for what it did. */
  predicate Moved(s: System, s': System, id: nat) {
    id in s.calls && id in s'.calls && s'.calls == s.calls[id := s'.calls[id]] && s'.calls[id].inc == s.calls[id].inc
  }

  lemma ReadAdmits(kind: Kind, s: System, id: nat, i: nat, k: nat)
    requires id in s.calls && s.calls[id].inc == 1_000_000_000 && s.calls[id].phase == Ready(i)
    requires k <= 6 && s.cell == CellAfter(k)
    ensures var s' := Next(SECOND, kind, s, Turn(id, 0));
            s'.cell == s.cell && Moved(s, s', id) && s'.calls[id].phase == Holding(i, CellAfter(k), 0)
  {
    CellAfterStep(k);
  }

  lemma WriteLands(kind: Kind, s: System, id: nat, k: nat)
    requires k <= 6 && s.cell == CellAfter(k)
    requires id in s.calls && s.calls[id].inc == 1_000_000_000 && s.calls[id].phase == Holding(0, CellAfter(k), 0)
    ensures var s' := Next(SECOND, kind, s, Turn(id, 0));
            s'.cell == CellAfter(k + 1) && Moved(s, s', id)
  {
    CellAfterStep(k);
  }

  lemma WriteFails(kind: Kind, s: System, id: nat, i: nat, k: nat)
    requires k <= 6 && s.cell == CellAfter(k + 1)
    requires id in s.calls && s.calls[id].inc == 1_000_000_000 && s.calls[id].phase == Holding(i, CellAfter(k), 0)
    ensures var s' := Next(SECOND, kind, s, Turn(id, 0));
            && s'.cell == s.cell && Moved(s, s', id)
            && s'.calls[id].phase == if i + 1 > MAX_CAS_ATTEMPTS then Done(Err(FailedToUpdate)) else Ready(i + 1)
  {
  }

  lemma ExecRound(kind: Kind, s: System, k: nat)
    ensures var s1 := Next(SECOND, kind, s, Turn(0, 0));
            var s2 := Next(SECOND, kind, s1, Turn(k + 1, 0));
            var s3 := Next(SECOND, kind, s2, Turn(k + 1, 0));
            Exec(SECOND, kind, s, Round(k)) == Next(SECOND, kind, s3, Turn(0, 0))
  {
    var r := Round(k);
    assert r[..3][..2] == r[..2] && r[..2][..1] == r[..1] && r[..1][..0] == [];
    assert Exec(SECOND, kind, s, r[..1]) == Next(SECOND, kind, s, r[0]);
    assert Exec(SECOND, kind, s, r[..2]) == Next(SECOND, kind, Exec(SECOND, kind, s, r[..1]), r[1]);
    assert Exec(SECOND, kind, s, r[..3]) == Next(SECOND, kind, Exec(SECOND, kind, s, r[..2]), r[2]);
  }

  lemma RoundMoves(s: System, s1: System, s2: System, s3: System, s4: System, k: nat)
    requires AfterRounds(s, k) && k <= MAX_CAS_ATTEMPTS
    requires Moved(s, s1, 0) && Moved(s1, s2, k + 1) && Moved(s2, s3, k + 1) && Moved(s3, s4, 0)
    requires s4.cell == CellAfter(k + 1)
    requires s4.calls[0].phase == if k + 1 > MAX_CAS_ATTEMPTS then Done(Err(FailedToUpdate)) else Ready(k + 1)
    ensures AfterRounds(s4, k + 1)
  {
  }

  lemma RoundFails(kind: Kind, s: System, k: nat)
    requires AfterRounds(s, k) && k <= MAX_CAS_ATTEMPTS
    ensures AfterRounds(Exec(SECOND, kind, s, Round(k)), k + 1)
  {
    var s1 := Next(SECOND, kind, s, Turn(0, 0));
    var s2 := Next(SECOND, kind, s1, Turn(k + 1, 0));
    var s3 := Next(SECOND, kind, s2, Turn(k + 1, 0));
    ReadAdmits(kind, s, 0, k, k);
    ReadAdmits(kind, s1, k + 1, 0, k);
    WriteLands(kind, s2, k + 1, k);
    WriteFails(kind, s3, 0, k, k);
    RoundMoves(s, s1, s2, s3, Next(SECOND, kind, s3, Turn(0, 0)), k);
    ExecRound(kind, s, k);
  }

  lemma {:induction false} RoundsFail(kind: Kind, s: System, k: nat)
    requires AfterRounds(s, 0) && k <= MAX_CAS_ATTEMPTS + 1
    ensures AfterRounds(Exec(SECOND, kind, s, Rounds(k)), k)
  {
    if k > 0 {
      RoundsFail(kind, s, k - 1);
      ExecAppend(SECOND, kind, s, Rounds(k - 1), Round(k - 1));
      RoundFails(kind, Exec(SECOND, kind, s, Rounds(k - 1)), k - 1);
    }
  }

  lemma SevenReady()
    ensures AfterRounds(SEVEN, 0) && Initial(SEVEN) && |SEVEN.calls| == 7
  {
    assert SEVEN.calls.Keys == {0, 1, 2, 3, 4, 5, 6};
    assert |SEVEN.calls| == |SEVEN.calls.Keys|;
  }

  predicate Fails(c: Limits, kind: Kind, s: System, turns: seq<Turn>, id: nat) {
    var k := Exec(c, kind, s, turns).calls;
    id in k && k[id].phase == Done(Err(FailedToUpdate))
  }

  /** And six is sharp: of seven calls that all fit the tolerance, over either store, one can be made to fail. */
  lemma SevenCallsCanFail(kind: Kind)
    ensures exists c, s, turns, id :: Fails(c, kind, s, turns, id) && Regular(c) && Initial(s) && |s.calls| == 7
  {
    SevenReady();
    RoundsFail(kind, SEVEN, 6);
    assert Fails(SECOND, kind, SEVEN, Rounds(6), 0);
  }
}
