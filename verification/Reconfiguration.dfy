/** Limits are sent with every call, so each call may bring its own. */
module Reconfiguration {
  import opened Prelude
  import opened Gcra

  /** A call, with the limits it brings. */
  datatype ConfiguredCall = ConfiguredCall(limits: Limits, now: int, inc: int)

  function StoredBy(s: Option<int>, calls: seq<ConfiguredCall>): Option<int> {
    if calls == [] then s
    else
      var k := calls[|calls| - 1];
      After(k.limits, StoredBy(s, calls[..|calls| - 1]), k.now, k.inc)
  }

  function LargestTolerance(calls: seq<ConfiguredCall>): int
    requires calls != []
  {
    var t := calls[|calls| - 1].limits.tolerance;
    if |calls| == 1 then t else Max(LargestTolerance(calls[..|calls| - 1]), t)
  }

  predicate Orderly(calls: seq<ConfiguredCall>) {
    && (forall i | 0 <= i < |calls| :: calls[i].inc >= 0)
    && (forall i, j | 0 <= i <= j < |calls| :: calls[i].now <= calls[j].now)
  }

  lemma {:induction false} Reach(calls: seq<ConfiguredCall>)
    requires calls != [] && Orderly(calls)
    ensures Within(StoredBy(None, calls), calls[|calls| - 1].now, LargestTolerance(calls))
  {
    var n := |calls| - 1;
    if n > 0 {
      Reach(calls[..n]);
      assert calls[n - 1].now <= calls[n].now;
    } else {
      assert calls[..n] == [];
    }
  }

  /** A call never moves the stored time back, nor removes it. */
  predicate NotBefore(s: Option<int>, later: Option<int>) {
    s.Some? ==> later.Some? && s.value <= later.value
  }

  lemma {:induction false} NeverDecreases(calls: seq<ConfiguredCall>, i: nat)
    requires Orderly(calls) && i <= |calls|
    ensures NotBefore(StoredBy(None, calls[..i]), StoredBy(None, calls))
  {
    if i < |calls| {
      var n := |calls| - 1;
      NeverDecreases(calls[..n], i);
      assert calls[..n][..i] == calls[..i];
      assert calls[n].inc >= 0;
    } else {
      assert calls[..i] == calls;
    }
  }

  /**
   Over every run of calls, whatever limits each brings: the stored time never goes back, never
   exceeds now by more than the largest tolerance used so far, and a blocked request no larger
   than its own limit is never told to wait longer than that.
   */
  lemma ReconfigurationIsSafe(calls: seq<ConfiguredCall>, i: nat)
    requires Orderly(calls) && i < |calls|
    ensures var k, seen, kept := calls[i], StoredBy(None, calls[..i]), StoredBy(None, calls[..i + 1]);
            var widest := LargestTolerance(calls[..i + 1]);
            var v := Judge(k.limits, seen, k.now, k.inc);
            && NotBefore(seen, kept)
            && Within(kept, k.now, widest)
            && (v.limited && k.inc <= k.limits.tolerance ==> 0 < v.retryAfter <= widest)
  {
    var upto := calls[..i + 1];
    assert upto[..i] == calls[..i] && upto[i] == calls[i];
    Reach(upto);
    NeverDecreases(upto, i);
    if i > 0 {
      assert Orderly(calls[..i]);
      Reach(calls[..i]);
      assert calls[..i][i - 1].now <= calls[i].now;
    }
  }
}
