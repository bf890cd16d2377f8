/** One call between its accesses to the store: where it stands, and how an answer moves it on. */
module Loop {
  import opened Prelude
  import opened Gcra
  import opened Codec

  const MAX_CAS_ATTEMPTS: int := 5

  /** About to read, `i` updates having failed; holding what was read; or done. */
  datatype Phase =
    | Ready(i: nat)
    | Holding(i: nat, seen: Option<u64>, now: int)
    | Done(result: Result<Verdict>)

  function OnRead(c: Limits, inc: int, i: nat, seen: Option<u64>, now: int): Phase {
    if Blocked(c, View(seen), now, inc) then Done(Ok(Judge(c, View(seen), now, inc)))
    else Holding(i, seen, now)
  }

  /** The value the call asks the store to write, and the time to live it asks for. */
  function Proposal(c: Limits, inc: int, seen: Option<u64>, now: int): u64 {
    Nanoseconds(NewTat(View(seen), now, inc))
  }

  /** In range or not, that value is the time asked for modulo 2^64. */
  lemma ProposalWraps(c: Limits, inc: int, seen: Option<u64>, now: int)
    ensures Proposal(c, inc, seen, now) == WrapU64(Level(View(seen), now) + inc)
  {
    NanosecondsWraps(Level(View(seen), now) + inc);
  }

  function OnUpdate(c: Limits, inc: int, h: Phase, updated: bool): Phase
    requires h.Holding?
  {
    if updated then Done(Ok(Judge(c, View(h.seen), h.now, inc)))
    else if h.i + 1 > MAX_CAS_ATTEMPTS then Done(Err(FailedToUpdate))
    else Ready(h.i + 1)
  }
}
