/** How a time becomes a stored value: nanoseconds since the epoch in a `u64`, and its decimal string. */
module Codec {
  import opened Prelude
  import opened Gcra

  /** `nanoseconds`: whole seconds and subsecond part, each cast to `u64`, in wrapping arithmetic. */
  function Nanoseconds(x: int): u64 {
    var seconds, subsec := TruncDiv(x, 1_000_000_000), TruncRem(x, 1_000_000_000);
    WrapU64(WrapU64(WrapU64(seconds) * 1_000_000_000) + WrapU64(subsec))
  }

  /** `from_nanoseconds`: the instant so many seconds and nanoseconds after the epoch. */
  function FromNanoseconds(v: u64): int {
    (v / 1_000_000_000) * 1_000_000_000 + v % 1_000_000_000
  }

  lemma WrapSum(a: int, b: int)
    ensures WrapU64(WrapU64(a) + WrapU64(b)) == WrapU64(a + b)
  {
  }

  lemma WrapShift(a: int, k: int)
    ensures WrapU64(a + k * 0x1_0000_0000_0000_0000) == WrapU64(a)
  {
  }

  lemma WrapScaled(a: int, k: int)
    ensures WrapU64(WrapU64(a) * k) == WrapU64(a * k)
  {
    var p := a / 0x1_0000_0000_0000_0000;
    assert a == p * 0x1_0000_0000_0000_0000 + WrapU64(a);
    assert a * k == WrapU64(a) * k + (p * k) * 0x1_0000_0000_0000_0000 by {
      assert (p * 0x1_0000_0000_0000_0000) * k == (p * k) * 0x1_0000_0000_0000_0000;
    }
    WrapShift(WrapU64(a) * k, p * k);
  }

  /** Before the epoch or after its 2^64 ns, the value stored is the time modulo 2^64. */
  lemma NanosecondsWraps(x: int)
    ensures Nanoseconds(x) == WrapU64(x)
  {
    var seconds, subsec := TruncDiv(x, 1_000_000_000), TruncRem(x, 1_000_000_000);
    WrapScaled(seconds, 1_000_000_000);
    WrapSum(seconds * 1_000_000_000, subsec);
    assert x == seconds * 1_000_000_000 + subsec;
  }

  /** A time survives being stored exactly when it lies in the 2^64 ns that follow the epoch. */
  lemma TimeRoundTrip(x: int)
    ensures FromNanoseconds(Nanoseconds(x)) == x <==> 0 <= x < TWO64
  {
  }

  lemma ValueRoundTrip(v: u64)
    ensures FromNanoseconds(v) == v && Nanoseconds(FromNanoseconds(v)) == v
  {
  }

  function Digit(d: int): char
    requires 0 <= d < 10
  {
    '0' + d as char
  }

  function ToString(n: nat): string {
    if n < 10 then [Digit(n)] else ToString(n / 10) + [Digit(n % 10)]
  }

  /** The number a nonempty run of decimal digits denotes. */
  function Digits(s: string): Option<nat> {
    if s == "" then None
    else
      var d := s[|s| - 1];
      if !('0' <= d <= '9') then None
      else if |s| == 1 then Some((d - '0') as nat)
      else match Digits(s[..|s| - 1])
        case None => None
        case Some(high) => Some(high * 10 + (d - '0') as nat)
  }

  /** `parse::<u64>`: digits with an optional plus sign, within range. */
  function ParseU64(s: string): Option<u64> {
    var digits := if s != "" && s[0] == '+' then s[1..] else s;
    match Digits(digits)
    case None => None
    case Some(n) => if n < TWO64 then Some(n) else None
  }

  /** `parse::<i64>`: digits with an optional sign, within range. */
  function ParseI64(s: string): Option<i64> {
    var negative := s != "" && s[0] == '-';
    var digits := if s != "" && (s[0] == '+' || s[0] == '-') then s[1..] else s;
    match Digits(digits)
    case None => None
    case Some(n) =>
      var v: int := if negative then -(n as int) else n as int;
      if -TWO63 <= v < TWO63 then Some(v) else None
  }

  lemma {:induction false} DigitsOfString(n: nat)
    ensures ToString(n) != "" && '0' <= ToString(n)[0] <= '9'
    ensures Digits(ToString(n)) == Some(n)
  {
    if n >= 10 {
      DigitsOfString(n / 10);
      assert ToString(n)[..|ToString(n)| - 1] == ToString(n / 10);
    }
  }

  /** Reading back what was written, as the Redis store does on every call. */
  lemma StringRoundTrip(v: u64)
    ensures ParseU64(ToString(v)) == Some(v) && ToString(v) != ""
  {
    DigitsOfString(v);
  }

  /** The stored value as the kernel sees it. */
  function View(cell: Option<u64>): Option<int> {
    match cell
    case None => None
    case Some(v) => Some(FromNanoseconds(v))
  }

  lemma ViewIsIdentity(cell: Option<u64>)
    ensures cell == None ==> View(cell) == None
    ensures cell.Some? ==> View(cell) == Some(cell.value)
  {
  }

  /** A clock between the epoch and 2^64 ns less the tolerance after it, the year 2554. */
  predicate InRange(c: Limits, now: int) {
    0 <= now && now + c.tolerance < TWO64
  }

  /** Under such a clock every time the limiter stores comes back as it was, through either store; and none is past when stored. */
  lemma StoredTimeSurvives(c: Limits, seen: Option<int>, now: int, inc: int)
    requires InRange(c, now) && inc >= 0 && !Blocked(c, seen, now, inc)
    ensures var t := NewTat(seen, now, inc);
            && t >= now
            && Nanoseconds(t) == t
            && FromNanoseconds(Nanoseconds(t)) == t
            && ParseU64(ToString(Nanoseconds(t))) == Some(t)
            && ToString(Nanoseconds(t)) != ""
  {
    var t := NewTat(seen, now, inc);
    NanosecondsWraps(t);
    TimeRoundTrip(t);
    StringRoundTrip(t);
  }
}
