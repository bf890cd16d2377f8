/** The protocol against the code in place: its conditional write is the stores', its turns are the passes of the loop. */
module Correspondence {
  import opened Prelude
  import opened Gcra
  import opened Codec
  import opened Stores
  import Limiter
  import opened Protocol

  /** In memory: same answer, same cell, and no other key touched. */
  lemma MemoryWrites(cells: Cells, key: string, seen: Option<u64>, value: u64, ttl: int, clock: int)
    ensures var (cell, ok) := Write(Permissive, CellOf(cells, key), seen, value);
            var (after, res) := Update(InMemory(cells), key, seen, value, ttl, clock);
            && res == Ok(ok) && after.InMemory?
            && CellOf(after.cells, key) == cell
            && forall other | other != key :: CellOf(after.cells, other) == CellOf(cells, other)
  {
  }

  /**
   In Redis, for a key that can be read and a time to live of at least a millisecond: same answer,
   and the same value to be read until the deadline, whatever was done to the expiry.
   */
  lemma RedisWrites(keys: Keys, key: string, seen: Option<u64>, value: u64, ttl: int, clock: int, later: int)
    requires RedisGet(keys, key, clock).Ok? && (seen.Some? ==> Visible(keys, key, clock))
    requires clock <= later < Deadline(clock, ttl)
    requires Visible(keys, key, clock) ==> Visible(keys, key, later)
    ensures var (cell, ok) := Write(Strict, RedisGet(keys, key, clock).value, seen, value);
            var (after, res) := Update(InRedis(keys), key, seen, value, ttl, clock);
            && res == Ok(ok) && after.InRedis?
            && RedisGet(after.keys, key, later) == Ok(cell)
  {
    StringRoundTrip(value);
    if Visible(keys, key, clock) {
      NotEmpty(keys[key].text);
    }
  }

  /**
   One pass of the retry loop over a memory store is two turns of the protocol: a read of what the
   rivals' writes before it left, and, if that did not settle the call, a write in any system `w`
   where the call still holds what it read and the rivals have meanwhile left their writes.
   */
  lemma PassIsTwoTurns(c: Limits, key: string, cells: Cells, m: Limiter.Moment, s: System, id: nat, w: System)
    requires id in s.calls && s.calls[id].phase.Ready?
    requires s.cell == CellOf(Overwrite(cells, key, m.before), key)
    requires var r := Read(c, s, id, m.now);
             id in w.calls && w.calls[id] == r.calls[id] && w.cell == Limiter.Brought(s.cell, m.between)
    ensures var (p, after) := Limiter.TryOnce(c, key, s.calls[id].inc, InMemory(cells), m, s.calls[id].phase.i);
            var r := Read(c, s, id, m.now);
            && after.InMemory?
            && (r.calls[id].phase.Done? ==> p == r.calls[id].phase && CellOf(after.cells, key) == r.cell)
            && (r.calls[id].phase.Holding? ==>
                  p == TryWrite(c, Permissive, w, id).calls[id].phase
                  && CellOf(after.cells, key) == TryWrite(c, Permissive, w, id).cell)
  {
  }

  /** A text that reads as a number is not the empty one that stands for an absent key. */
  lemma NotEmpty(s: string)
    requires ParseU64(s).Some?
    ensures s != ""
  {
  }
}
