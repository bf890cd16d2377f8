/**
 When a key in Redis vanishes too early for the rate bound to hold, exactly. The cut of the time to
 live to milliseconds is harmless if at least as much time passes before the write as it cuts off.
 */
module Drift {
  import opened Prelude
  import opened Gcra
  import opened Stores
  import opened Expiry

  /** A deadline falls short of the time the key stands for just if more is cut off than the write came late. */
  lemma DeadlineShortIff(now: int, written: int, ttl: int)
    requires ttl >= 0 && now <= written
    ensures Deadline(written, ttl) < now + ttl <==> ttl % 1_000_000 > written - now
  {
  }

  /** The time to live arrival `j` asks for, should it be admitted. */
  function TtlAt(c: Limits, run: seq<Arrival>, j: nat): int
    requires j < |run|
  {
    NewTat(Seen(Held(c, run[..j]), run[j]), run[j].now, run[j].inc) - run[j].now
  }

  /** Arrival `j` wrote a deadline that comes before the time it stored. */
  predicate CutsShort(c: Limits, run: seq<Arrival>, j: nat)
    requires j < |run|
  {
    AdmitsAt(c, run, j) && TtlAt(c, run, j) % 1_000_000 > run[j].written - run[j].now
  }

  // ---- Without early expiries -----------------------------------------------------------------

  lemma {:induction false} NothingLost(c: Limits, run: seq<Arrival>, i: nat, n: nat)
    requires KeptUntilTat(c, run) && i <= n <= |run|
    ensures Lost(c, run, i, n) == 0
  {
    if i < n {
      NothingLost(c, run, i, n - 1);
    }
  }

  /** While the key outlives the time it stands for, the rate bound holds as if it never expired. */
  lemma PlainBound(c: Limits, run: seq<Arrival>, i: nat, j: nat)
    requires Clocked(run) && KeptUntilTat(c, run)
    requires i <= j < |run| && AdmitsAt(c, run, i) && AdmitsAt(c, run, j)
    ensures Used(c, run, i, j + 1) <= c.tolerance + (run[j].now - run[i].now)
  {
    LossBound(c, run, i, j);
    NothingLost(c, run, i + 1, j + 1);
  }

  // ---- What the next arrival can do -----------------------------------------------------------

  /** The window from arrival `i` to the last one exceeds the rate bound. */
  predicate Exceeds(c: Limits, run: seq<Arrival>, i: nat)
    requires i < |run|
  {
    AdmitsAt(c, run, i) && Used(c, run, i, |run|) > c.tolerance + (run[|run| - 1].now - run[i].now)
  }

  /** A further arrival is admitted and closes a window that exceeds the rate bound. */
  ghost predicate Breaks(c: Limits, run: seq<Arrival>, a: Arrival) {
    && Clocked(run + [a]) && KeptUntilDeadline(c, run + [a])
    && AdmitsAt(c, run + [a], |run|)
    && exists i | 0 <= i < |run| :: Exceeds(c, run + [a], i)
  }

  /** The key can still be found vanished before the time it stands for. */
  predicate Exposed(c: Limits, run: seq<Arrival>)
    requires run != []
  {
    var s := Held(c, run);
    s.Some? && s.value.expireAt < s.value.tat && run[|run| - 1].written < s.value.tat
  }

  lemma {:induction false} UsedInPrefix(c: Limits, run: seq<Arrival>, i: nat, n: nat, k: nat)
    requires i <= n <= k <= |run|
    ensures Used(c, run[..k], i, n) == Used(c, run, i, n)
  {
    if i < n {
      UsedInPrefix(c, run, i, n - 1, k);
      assert run[..k][..n - 1] == run[..n - 1];
    }
  }

  /** What the key stands for is the window of some admitted arrival, spent to the last nanosecond. */
  lemma {:induction false} Anchor(c: Limits, run: seq<Arrival>) returns (i: nat)
    requires Held(c, run).Some?
    ensures i < |run| && AdmitsAt(c, run, i)
    ensures run[i].now + Used(c, run, i, |run|) == Held(c, run).value.tat
  {
    var n := |run| - 1;
    var seen, a := Seen(Held(c, run[..n]), run[n]), run[n];
    if AdmitsAt(c, run, n) && (seen == None || seen.value <= a.now) {
      i := n;
      assert Used(c, run, n, n) == 0;
    } else {
      i := Anchor(c, run[..n]);
      assert run[..n][..i] == run[..i];
      UsedInPrefix(c, run, i, n, n);
    }
  }

  /** A request for the full tolerance, once the key is gone and before its time has come. */
  function Witness(c: Limits, run: seq<Arrival>): Arrival
    requires run != [] && Exposed(c, run)
  {
    var at := Max(Held(c, run).value.expireAt, run[|run| - 1].written);
    Arrival(at, at, c.tolerance, true)
  }

  lemma UsedAppend(c: Limits, run: seq<Arrival>, a: Arrival, i: nat)
    requires i < |run|
    ensures AdmitsAt(c, run + [a], i) == AdmitsAt(c, run, i)
    ensures Used(c, run + [a], i, |run| + 1) == Used(c, run, i, |run|) + ChargeAt(c, run + [a], |run|)
  {
    var n, all := |run|, run + [a];
    assert all[..n] == run && all[..i] == run[..i];
    UsedInPrefix(c, all, i, n, n);
  }

  lemma WitnessAdmitted(c: Limits, run: seq<Arrival>)
    requires run != [] && Clocked(run) && KeptUntilDeadline(c, run) && c.tolerance >= 0
    requires Exposed(c, run)
    ensures var all := run + [Witness(c, run)];
            && Clocked(all) && KeptUntilDeadline(c, all)
            && ChargeAt(c, all, |run|) == c.tolerance && AdmitsAt(c, all, |run|)
  {
    var a := Witness(c, run);
    LastIsLatest(run, a.now);
    RunAppend(c, run, a);
    assert (run + [a])[..|run|] == run;
  }

  lemma ExposedBreaks(c: Limits, run: seq<Arrival>)
    requires run != [] && Clocked(run) && KeptUntilDeadline(c, run) && c.tolerance >= 0
    requires Exposed(c, run)
    ensures Breaks(c, run, Witness(c, run))
  {
    var i := Anchor(c, run);
    WitnessAdmitted(c, run);
    UsedAppend(c, run, Witness(c, run), i);
    assert Exceeds(c, run + [Witness(c, run)], i);
  }

  lemma UnexposedKeepsTime(c: Limits, run: seq<Arrival>, a: Arrival)
    requires run != [] && KeptUntilTat(c, run) && !Exposed(c, run)
    requires Clocked(run + [a]) && KeptUntilDeadline(c, run + [a])
    ensures KeptUntilTat(c, run + [a])
  {
    var n, all := |run|, run + [a];
    assert all[..n] == run && all[n - 1].written <= a.now;
    forall j | 0 <= j <= n && all[j].gone
      ensures var s := Held(c, all[..j]); s.Some? && s.value.tat <= all[j].now
    {
      if j < n {
        assert all[..j] == run[..j] && run[j].gone;
      } else {
        assert all[n].gone;
      }
    }
  }

  lemma KeptNeverExceeds(c: Limits, run: seq<Arrival>, i: nat)
    requires Clocked(run) && KeptUntilTat(c, run)
    requires i < |run| && AdmitsAt(c, run, |run| - 1)
    ensures !Exceeds(c, run, i)
  {
    if AdmitsAt(c, run, i) {
      PlainBound(c, run, i, |run| - 1);
    }
  }

  lemma OnlyExposedBreaks(c: Limits, run: seq<Arrival>, a: Arrival)
    requires run != [] && KeptUntilTat(c, run) && Breaks(c, run, a)
    ensures Exposed(c, run)
  {
    var i :| 0 <= i < |run| && Exceeds(c, run + [a], i);
    if !Exposed(c, run) {
      UnexposedKeepsTime(c, run, a);
      KeptNeverExceeds(c, run + [a], i);
    }
  }

  /** As long as nothing was lost, the next arrival can break the rate bound just if the key is exposed. */
  lemma NextBreaksIff(c: Limits, run: seq<Arrival>)
    requires run != [] && Clocked(run) && KeptUntilDeadline(c, run) && KeptUntilTat(c, run) && c.tolerance >= 0
    ensures (exists a :: Breaks(c, run, a)) <==> Exposed(c, run)
  {
    if Exposed(c, run) {
      ExposedBreaks(c, run);
    }
    if a :| Breaks(c, run, a) {
      OnlyExposedBreaks(c, run, a);
    }
  }

  // ---- Over whole runs, in terms of the writes ------------------------------------------------

  lemma WriteExposesIff(c: Limits, run: seq<Arrival>)
    requires run != [] && Clocked(run) && AdmitsAt(c, run, |run| - 1)
    ensures Exposed(c, run) <==> CutsShort(c, run, |run| - 1)
  {
    var n := |run| - 1;
    DeadlineShortIff(run[n].now, run[n].written, TtlAt(c, run, n));
  }

  lemma CutExposes(c: Limits, run: seq<Arrival>, j: nat)
    requires Clocked(run) && j < |run| && CutsShort(c, run, j)
    ensures var front := run[..j + 1]; Clocked(front) && AdmitsAt(c, front, j) && Exposed(c, front)
  {
    assert run[..j + 1][..j] == run[..j];
    WriteExposesIff(c, run[..j + 1]);
  }

  /** An exposed key was exposed by the write it holds. */
  lemma {:induction false} ExposedByWrite(c: Limits, run: seq<Arrival>) returns (j: nat)
    requires run != [] && Clocked(run) && Exposed(c, run)
    ensures j < |run| && CutsShort(c, run, j)
  {
    var n := |run| - 1;
    if AdmitsAt(c, run, n) {
      j := n;
      WriteExposesIff(c, run);
    } else {
      assert run[n - 1].written <= run[n].now <= run[n].written;
      j := ExposedByWrite(c, run[..n]);
      assert run[..n][..j] == run[..j];
    }
  }

  lemma PrefixAdmissible(c: Limits, run: seq<Arrival>, k: nat)
    requires Clocked(run) && KeptUntilDeadline(c, run) && k <= |run|
    ensures Clocked(run[..k]) && KeptUntilDeadline(c, run[..k])
    ensures forall j | 0 <= j < k :: CutsShort(c, run[..k], j) == CutsShort(c, run, j)
    ensures KeptUntilTat(c, run) ==> KeptUntilTat(c, run[..k])
  {
    forall j | 0 <= j < k ensures run[..k][..j] == run[..j] {
    }
  }

  lemma {:induction false} UncutKeepsTime(c: Limits, run: seq<Arrival>)
    requires Clocked(run) && KeptUntilDeadline(c, run)
    requires forall j | 0 <= j < |run| :: !CutsShort(c, run, j)
    ensures KeptUntilTat(c, run)
  {
    forall j | 0 <= j < |run| && run[j].gone
      ensures var s := Held(c, run[..j]); s.Some? && s.value.tat <= run[j].now
    {
      assert run[..0] == [];
      PrefixAdmissible(c, run, j);
      if Exposed(c, run[..j]) {
        var k := ExposedByWrite(c, run[..j]);
      }
      assert run[j - 1].written <= run[j].now;
    }
  }

  /** With no write cut short, the rate bound holds in every window. */
  lemma UncutBound(c: Limits, run: seq<Arrival>, i: nat, j: nat)
    requires Clocked(run) && KeptUntilDeadline(c, run)
    requires forall k | 0 <= k < |run| :: !CutsShort(c, run, k)
    requires i <= j < |run| && AdmitsAt(c, run, i) && AdmitsAt(c, run, j)
    ensures Used(c, run, i, j + 1) <= c.tolerance + (run[j].now - run[i].now)
  {
    UncutKeepsTime(c, run);
    PlainBound(c, run, i, j);
  }

  /**
   The exact condition, over every run: at some point of it the next request could break the rate
   bound if and only if some write cut off more of its time to live than it came late.
   */
  lemma DriftPossibleIff(c: Limits, run: seq<Arrival>)
    requires Clocked(run) && KeptUntilDeadline(c, run) && c.tolerance >= 0
    ensures (exists k, a | 0 < k <= |run| :: Breaks(c, run[..k], a))
       <==> (exists j | 0 <= j < |run| :: CutsShort(c, run, j))
  {
    if j :| 0 <= j < |run| && CutsShort(c, run, j) {
      PrefixAdmissible(c, run, j + 1);
      CutExposes(c, run, j);
      ExposedBreaks(c, run[..j + 1]);
    } else if k, a :| 0 < k <= |run| && Breaks(c, run[..k], a) {
      UncutKeepsTime(c, run);
      PrefixAdmissible(c, run, k);
      OnlyExposedBreaks(c, run[..k], a);
      var j := ExposedByWrite(c, run[..k]);
    }
  }

  /** An instance: one write, and half a millisecond of its time to live cut off. */
  lemma DriftHappens()
    ensures exists c, a, b :: Regular(c) && Breaks(c, [a], b)
  {
    var c := Limits(1_500_000, 1_500_000, 1);
    var a := Arrival(0, 0, c.interval, false);
    assert [a][..0] == [];
    assert CutsShort(c, [a], 0);
    WriteExposesIff(c, [a]);
    ExposedBreaks(c, [a]);
    assert Regular(c) && Breaks(c, [a], Witness(c, [a]));
  }
}
