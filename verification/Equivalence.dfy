/**
 When two stored values cannot be told apart: a stored time in the past says no more than an
 absent key. Peeking, and the vanishing of a key whose time has come, are invisible for that reason.
 */
module Equivalence {
  import opened Prelude
  import opened Gcra
  import opened Trace

  /** Equal once times before `now` are forgotten, an absent key being earlier than any time. */
  predicate Alike(s1: Option<int>, s2: Option<int>, now: int) {
    Level(s1, now) == Level(s2, now)
  }

  /** Arrival times never go back, starting from `from`. */
  predicate Nondecreasing(from: int, rs: seq<Request>) {
    && (rs != [] ==> from <= rs[0].now)
    && forall i, j | 0 <= i <= j < |rs| :: rs[i].now <= rs[j].now
  }

  function VerdictAt(c: Limits, s: Option<int>, rs: seq<Request>, j: nat): Verdict
    requires j < |rs|
  {
    Judge(c, Stored(c, s, rs[..j]), rs[j].now, rs[j].inc)
  }

  /** The reader's view of two verdicts: the decision and `retry_after` always, everything for a request that fits the limit. */
  predicate SameAnswer(c: Limits, inc: int, v1: Verdict, v2: Verdict) {
    && v1.limited == v2.limited
    && v1.retryAfter == v2.retryAfter
    && (inc <= c.tolerance || !v1.limited ==> v1 == v2)
  }

  lemma AlikeStep(c: Limits, s1: Option<int>, s2: Option<int>, now: int, inc: int)
    requires Alike(s1, s2, now)
    ensures SameAnswer(c, inc, Judge(c, s1, now, inc), Judge(c, s2, now, inc))
    ensures Alike(After(c, s1, now, inc), After(c, s2, now, inc), now)
    ensures !Blocked(c, s1, now, inc) ==> After(c, s1, now, inc) == After(c, s2, now, inc)
  {
  }

  lemma {:induction false} AlikeStored(c: Limits, s1: Option<int>, s2: Option<int>, from: int, rs: seq<Request>)
    requires Alike(s1, s2, from) && Nondecreasing(from, rs)
    ensures Alike(Stored(c, s1, rs), Stored(c, s2, rs), if rs == [] then from else rs[|rs| - 1].now)
  {
    if rs != [] {
      var n := |rs| - 1;
      AlikeStored(c, s1, s2, from, rs[..n]);
      AlikeStep(c, Stored(c, s1, rs[..n]), Stored(c, s2, rs[..n]), rs[n].now, rs[n].inc);
    }
  }

  /** Alike stored values answer every later run alike. */
  lemma AlikeRun(c: Limits, s1: Option<int>, s2: Option<int>, from: int, rs: seq<Request>, j: nat)
    requires Alike(s1, s2, from) && Nondecreasing(from, rs) && j < |rs|
    ensures SameAnswer(c, rs[j].inc, VerdictAt(c, s1, rs, j), VerdictAt(c, s2, rs, j))
    ensures Passes(c, s1, rs, j) == Passes(c, s2, rs, j)
  {
    AlikeStored(c, s1, s2, from, rs[..j]);
    AlikeStep(c, Stored(c, s1, rs[..j]), Stored(c, s2, rs[..j]), rs[j].now, rs[j].inc);
  }

  /** With one quota and a clock that never goes back, a run leaves at most the tolerance ahead. */
  lemma {:induction false} StoredWithinTolerance(c: Limits, rs: seq<Request>, now: int)
    requires forall i | 0 <= i < |rs| :: rs[i].now <= now
    ensures Within(Stored(c, None, rs), now, c.tolerance)
  {
    if rs != [] {
      var n := |rs| - 1;
      StoredWithinTolerance(c, rs[..n], now);
      assert rs[n].now <= now;
    }
  }

  /** A peek changes the stored value exactly when it finds the key absent or its time past. */
  lemma PeekWritesIff(c: Limits, s: Option<int>, now: int)
    requires c.tolerance >= 0
    ensures Blocked(c, s, now, 0) <==> s.Some? && s.value > now + c.tolerance
    ensures After(c, s, now, 0) != s <==> s == None || s.value < now
  {
  }

  /** The documented "no update is performed" is not literally so: a peek creates an absent key. */
  lemma PeekCreatesKey()
    ensures exists c, now :: Regular(c) && After(c, None, now, 0) == Some(now)
  {
    var c := Limits(1_000_000_000, 1_000_000_000, 1);
    assert Regular(c) && After(c, None, 0, 0) == Some(0);
  }

  /**
   Yet no one can tell: after any run, a quantity-0 call passes, and every later run is answered
   as if the call had not been made.
   */
  lemma PeekIsInvisible(c: Limits, earlier: seq<Request>, now: int, later: seq<Request>, j: nat)
    requires Regular(c) && Nondecreasing(now, later) && j < |later|
    requires forall i | 0 <= i < |earlier| :: earlier[i].now <= now
    ensures var peek := Request(now, 0);
            var s1, s2 := Stored(c, None, earlier), Stored(c, None, earlier + [peek]);
            && Passes(c, None, earlier + [peek], |earlier|)
            && SameAnswer(c, later[j].inc, VerdictAt(c, s1, later, j), VerdictAt(c, s2, later, j))
  {
    var peek := Request(now, 0);
    StoredWithinTolerance(c, earlier, now);
    assert (earlier + [peek])[..|earlier|] == earlier;
    IntervalWithinTolerance(c);
    AlikeRun(c, Stored(c, None, earlier), Stored(c, None, earlier + [peek]), now, later, j);
  }
}
