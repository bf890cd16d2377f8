/**
 The stores under the limiter. Each operation is given twice: as a function on the store's
 contents, which the proofs use, and as the method that works in place, proved to do the same.
 */
module Stores {
  import opened Prelude
  import opened Codec

  /** A Redis string key: its text, and the instant from which it is gone. */
  datatype Entry = Entry(text: string, expireAt: Option<int>)

  type Cells = map<string, u64>
  type Keys = map<string, Entry>

  // ---- Memory: keys never expire -------------------------------------------------------------

  function CellOf(cells: Cells, key: string): Option<u64> {
    if key in cells then Some(cells[key]) else None
  }

  function MemoryCas(cells: Cells, key: string, old_: u64, new_: u64): (Cells, bool) {
    if key in cells && cells[key] != old_ then (cells, false) else (cells[key := new_], true)
  }

  function MemorySetNx(cells: Cells, key: string, value: u64): (Cells, bool) {
    if key in cells then (cells, false) else (cells[key := value], true)
  }

  /** What writes by other limiters leave of the key: the last of them. */
  function Overwrite(cells: Cells, key: string, writes: seq<u64>): Cells {
    if writes == [] then cells else cells[key := writes[|writes| - 1]]
  }

  class MemoryStore {
    var cells: Cells

    constructor ()
      ensures cells == map[]
    {
      cells := map[];
    }

    method CompareAndSwapWithTtl(key: string, old_: u64, new_: u64, ttl: int) returns (res: Result<bool>)
      modifies this
      ensures var (after, swapped) := MemoryCas(old(cells), key, old_, new_);
              cells == after && res == Ok(swapped)
    {
      if key in cells && cells[key] != old_ {
        return Ok(false);
      }
      cells := cells[key := new_];
      return Ok(true);
    }

    method GetWithTime(key: string, clock: int) returns (res: Result<(Option<u64>, int)>)
      ensures res == Ok((CellOf(cells, key), clock))
    {
      return Ok((if key in cells then Some(cells[key]) else None, clock));
    }

    method SetIfNotExistsWithTtl(key: string, value: u64, ttl: int) returns (res: Result<bool>)
      modifies this
      ensures var (after, written) := MemorySetNx(old(cells), key, value);
              cells == after && res == Ok(written)
    {
      if key in cells {
        return Ok(false);
      }
      cells := cells[key := value];
      return Ok(true);
    }

    /** Other limiters' writes to the key, between two operations of this one. */
    method Interfere(key: string, writes: seq<u64>)
      modifies this
      ensures cells == Overwrite(old(cells), key, writes)
    {
      for k := 0 to |writes|
        invariant cells == Overwrite(old(cells), key, writes[..k])
      {
        cells := cells[key := writes[k]];
      }
      assert writes[..|writes|] == writes;
    }
  }

  // ---- Redis: decimal strings that expire ----------------------------------------------------

  predicate Visible(keys: Keys, key: string, clock: int) {
    key in keys && (keys[key].expireAt.Some? ==> clock < keys[key].expireAt.value)
  }

  /** Opened for reading, an absent key is a null pointer. */
  function TextOf(keys: Keys, key: string, clock: int): Option<string> {
    if Visible(keys, key, clock) then Some(keys[key].text) else None
  }

  /** Opened for writing, it reads as the empty string. */
  function WritableText(keys: Keys, key: string, clock: int): string {
    if Visible(keys, key, clock) then keys[key].text else ""
  }

  /** Redis is given whole milliseconds, and adds its own clock. */
  function Deadline(clock: int, ttl: int): int {
    clock + TruncDiv(ttl, 1_000_000) * 1_000_000
  }

  function Written(clock: int, value: u64, ttl: int): Entry {
    Entry(ToString(value), Some(Deadline(clock, ttl)))
  }

  function RedisGet(keys: Keys, key: string, clock: int): Result<Option<u64>> {
    match TextOf(keys, key, clock)
    case None => Ok(None)
    case Some(s) =>
      match ParseU64(s)
      case None => Err(Panic)
      case Some(v) => Ok(Some(v))
  }

  function RedisCas(keys: Keys, key: string, old_: u64, new_: u64, ttl: int, clock: int): (Keys, Result<bool>) {
    var s := WritableText(keys, key, clock);
    if s == "" then (keys, Ok(false))
    else match ParseU64(s)
      case None => (keys, Err(ParseInt))
      case Some(v) =>
        if v == old_ then (keys[key := Written(clock, new_, ttl)], Ok(true)) else (keys, Ok(false))
  }

  /** Sets the expiry even of a key it does not write. */
  function RedisSetNx(keys: Keys, key: string, value: u64, ttl: int, clock: int): (Keys, Result<bool>) {
    var s := WritableText(keys, key, clock);
    if s == "" then (keys[key := Written(clock, value, ttl)], Ok(true))
    else (keys[key := Entry(s, Some(Deadline(clock, ttl)))], Ok(false))
  }

  class RedisStore {
    var keys: Keys

    constructor ()
      ensures keys == map[]
    {
      keys := map[];
    }

    /** `RedisKeyWritable::read`. */
    method Read(key: string, clock: int) returns (s: string)
      ensures s == WritableText(keys, key, clock)
    {
      s := if Visible(keys, key, clock) then keys[key].text else "";
    }

    method IsEmpty(key: string, clock: int) returns (empty: bool)
      ensures empty <==> WritableText(keys, key, clock) == ""
    {
      var s := Read(key, clock);
      return s == "";
    }

    method Write(key: string, text: string)
      modifies this
      ensures keys == old(keys)[key := Entry(text, None)]
    {
      keys := keys[key := Entry(text, None)];
    }

    /** Refused on a key that is not there. */
    method SetExpire(key: string, ttl: int, clock: int) returns (res: Result<()>)
      modifies this
      ensures if old(Visible(keys, key, clock))
              then res == Ok(()) && keys == old(keys)[key := Entry(old(keys)[key].text, Some(Deadline(clock, ttl)))]
              else res == Err(KeyError) && keys == old(keys)
    {
      if !Visible(keys, key, clock) {
        return Err(KeyError);
      }
      keys := keys[key := keys[key].(expireAt := Some(Deadline(clock, ttl)))];
      return Ok(());
    }

    method CompareAndSwapWithTtl(key: string, old_: u64, new_: u64, ttl: int, clock: int) returns (res: Result<bool>)
      modifies this
      ensures (keys, res) == RedisCas(old(keys), key, old_, new_, ttl, clock)
    {
      var s := Read(key, clock);
      if s == "" {
        return Ok(false);
      }
      match ParseU64(s)
      case None => return Err(ParseInt);
      case Some(v) =>
        if v != old_ {
          return Ok(false);
        }
        Write(key, ToString(new_));
        var expired := SetExpire(key, ttl, clock);
        assert expired.Ok? && keys == old(keys)[key := Written(clock, new_, ttl)];
        return Ok(true);
    }

    method GetWithTime(key: string, clock: int) returns (res: Result<(Option<u64>, int)>)
      ensures var got := RedisGet(keys, key, clock);
              res == if got.Ok? then Ok((got.value, clock)) else Err(got.error)
    {
      if !Visible(keys, key, clock) {
        return Ok((None, clock));
      }
      match ParseU64(keys[key].text)
      case None => return Err(Panic);
      case Some(v) => return Ok((Some(v), clock));
    }

    method SetIfNotExistsWithTtl(key: string, value: u64, ttl: int, clock: int) returns (res: Result<bool>)
      modifies this
      ensures (keys, res) == RedisSetNx(old(keys), key, value, ttl, clock)
    {
      var empty := IsEmpty(key, clock);
      if empty {
        Write(key, ToString(value));
      }
      var expired := SetExpire(key, ttl, clock);
      assert expired.Ok?;
      assert empty ==> keys == old(keys)[key := Written(clock, value, ttl)];
      return Ok(empty);
    }
  }

  // ---- Either store, as the limiter sees it --------------------------------------------------

  datatype Contents = InMemory(cells: Cells) | InRedis(keys: Keys)

  /** A command in Redis runs alone, so only a memory store sees other limiters' writes. */
  function Interfered(st: Contents, key: string, writes: seq<u64>): Contents {
    match st
    case InMemory(cells) => InMemory(Overwrite(cells, key, writes))
    case InRedis(_) => st
  }

  function Get(st: Contents, key: string, clock: int): Result<Option<u64>> {
    match st
    case InMemory(cells) => Ok(CellOf(cells, key))
    case InRedis(keys) => RedisGet(keys, key, clock)
  }

  /** Compare-and-swap of a value that was seen, set-if-absent when none was. */
  function Update(st: Contents, key: string, seen: Option<u64>, new_: u64, ttl: int, clock: int): (Contents, Result<bool>) {
    match st
    case InMemory(cells) =>
      var (after, done) := if seen.Some? then MemoryCas(cells, key, seen.value, new_) else MemorySetNx(cells, key, new_);
      (InMemory(after), Ok(done))
    case InRedis(keys) =>
      var (after, res) := if seen.Some? then RedisCas(keys, key, seen.value, new_, ttl, clock)
                          else RedisSetNx(keys, key, new_, ttl, clock);
      (InRedis(after), res)
  }

  datatype Store = Memory(m: MemoryStore) | Redis(r: RedisStore) {

    function Objects(): set<object> {
      match this
      case Memory(m) => {m}
      case Redis(r) => {r}
    }

    function State(): Contents
      reads Objects()
    {
      match this
      case Memory(m) => InMemory(m.cells)
      case Redis(r) => InRedis(r.keys)
    }

    method Interfere(key: string, writes: seq<u64>)
      modifies Objects()
      ensures State() == Interfered(old(State()), key, writes)
    {
      match this
      case Memory(m) => m.Interfere(key, writes);
      case Redis(_) =>
    }

    method GetWithTime(key: string, clock: int) returns (res: Result<(Option<u64>, int)>)
      ensures var got := Get(State(), key, clock);
              res == if got.Ok? then Ok((got.value, clock)) else Err(got.error)
    {
      match this
      case Memory(m) => res := m.GetWithTime(key, clock);
      case Redis(r) => res := r.GetWithTime(key, clock);
    }

    method CompareAndSwapWithTtl(key: string, old_: u64, new_: u64, ttl: int, clock: int) returns (res: Result<bool>)
      modifies Objects()
      ensures (State(), res) == Update(old(State()), key, Some(old_), new_, ttl, clock)
    {
      match this
      case Memory(m) => res := m.CompareAndSwapWithTtl(key, old_, new_, ttl);
      case Redis(r) => res := r.CompareAndSwapWithTtl(key, old_, new_, ttl, clock);
    }

    method SetIfNotExistsWithTtl(key: string, value: u64, ttl: int, clock: int) returns (res: Result<bool>)
      modifies Objects()
      ensures (State(), res) == Update(old(State()), key, None, value, ttl, clock)
    {
      match this
      case Memory(m) => res := m.SetIfNotExistsWithTtl(key, value, ttl);
      case Redis(r) => res := r.SetIfNotExistsWithTtl(key, value, ttl, clock);
    }
  }
}
