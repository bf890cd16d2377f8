/** What the Redis store's operations mean for the key: what is read, when it is gone, what is refused. */
module RedisKeys {
  import opened Prelude
  import opened Codec
  import opened Numerals
  import opened Stores

  /** The deadline is the time to live cut to whole milliseconds, never more than it and short of it by less than one. */
  lemma DeadlineCuts(clock: int, ttl: int)
    requires ttl >= 0
    ensures clock + ttl - 1_000_000 < Deadline(clock, ttl) <= clock + ttl
    ensures (Deadline(clock, ttl) - clock) % 1_000_000 == 0
  {
  }

  /** The key is there, and its text writes no number. */
  ghost predicate Garbled(keys: Keys, key: string, clock: int) {
    Visible(keys, key, clock) && forall v: u64 :: !WritesNat(keys[key].text, v)
  }

  /** What is read: nothing where the key is gone, the number its text writes, and a panic on any other text. */
  lemma ReadsNumber(keys: Keys, key: string, clock: int)
    ensures RedisGet(keys, key, clock) == Ok(None) <==> !Visible(keys, key, clock)
    ensures forall v: u64 :: RedisGet(keys, key, clock) == Ok(Some(v)) <==> Visible(keys, key, clock) && WritesNat(keys[key].text, v)
    ensures RedisGet(keys, key, clock) == Err(Panic) <==> Garbled(keys, key, clock)
  {
    if Visible(keys, key, clock) {
      forall v: u64 ensures ParseU64(keys[key].text) == Some(v) <==> WritesNat(keys[key].text, v) {
        ParseU64Iff(keys[key].text, v);
      }
    }
  }

  ghost predicate OthersKept(before: Keys, after: Keys, key: string) {
    forall other | other != key :: (other in before <==> other in after) && (other in before ==> before[other] == after[other])
  }

  /** The key holds `v` from `clock` on, and is gone once the time to live has passed. */
  ghost predicate HoldsFor(keys: Keys, key: string, v: u64, clock: int, ttl: int) {
    && (forall t | clock <= t && t + 1_000_000 <= clock + ttl :: RedisGet(keys, key, t) == Ok(Some(v)))
    && (forall t | clock + ttl <= t :: RedisGet(keys, key, t) == Ok(None))
  }

  lemma WrittenHoldsFor(keys: Keys, key: string, v: u64, clock: int, ttl: int)
    requires ttl >= 0
    ensures HoldsFor(keys[key := Written(clock, v, ttl)], key, v, clock, ttl)
  {
    DeadlineCuts(clock, ttl);
    StringRoundTrip(v);
  }

  /**
   Compare-and-swap, exactly: it swaps if and only if the value expected is what would be read, the
   new value then lasts for the time to live, and otherwise nothing changes. It fails only on a text,
   other than the empty one, that is no number.
   */
  lemma CasExactly(keys: Keys, key: string, old_: u64, new_: u64, ttl: int, clock: int)
    requires ttl >= 0
    ensures var (after, res) := RedisCas(keys, key, old_, new_, ttl, clock);
            && OthersKept(keys, after, key)
            && (res == Ok(true) <==> RedisGet(keys, key, clock) == Ok(Some(old_)))
            && (res == Ok(true) ==> HoldsFor(after, key, new_, clock, ttl))
            && (res != Ok(true) ==> after == keys)
            && (res.Err? <==> Garbled(keys, key, clock) && keys[key].text != "")
            && (res.Err? ==> res.error == ParseInt)
  {
    WrittenHoldsFor(keys, key, new_, clock, ttl);
    ReadsNumber(keys, key, clock);
  }

  /**
   Set-if-absent, exactly: it writes if and only if the key is gone or empty, and whether it does or
   not the key lasts for the time to live given, with the text it had if it had one.
   */
  lemma SetNxExactly(keys: Keys, key: string, value: u64, ttl: int, clock: int)
    requires ttl >= 0
    ensures var (after, res) := RedisSetNx(keys, key, value, ttl, clock);
            && OthersKept(keys, after, key)
            && (res == Ok(true) <==> !Visible(keys, key, clock) || keys[key].text == "")
            && (res == Ok(true) ==> HoldsFor(after, key, value, clock, ttl))
            && (res != Ok(true) ==> res == Ok(false) && key in after && after[key].text == keys[key].text)
            && (forall t | clock + ttl <= t :: RedisGet(after, key, t) == Ok(None))
            && (forall t | clock <= t && t + 1_000_000 <= clock + ttl :: Visible(after, key, t))
  {
    WrittenHoldsFor(keys, key, value, clock, ttl);
    DeadlineCuts(clock, ttl);
  }
}
