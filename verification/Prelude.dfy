/** Vocabulary shared by every module: options, results, and Rust's fixed-width integers. */
module Prelude {

  datatype Option<+T> = None | Some(value: T)

  /** The error kinds a call can end with; `Panic` stands for an `unwrap` on bad data. */
  datatype Error = ZeroRate | FailedToUpdate | ParseInt | Usage | NotAnInteger | KeyError | Panic

  datatype Result<+T> = Ok(value: T) | Err(error: Error)

  const TWO63: int := 0x8000_0000_0000_0000
  const TWO64: int := 0x1_0000_0000_0000_0000

  type i64 = x: int | -TWO63 <= x < TWO63
  type u64 = x: int | 0 <= x < TWO64

  /** Two's complement truncation, the result of an `i64` operation that overflows in a release build. */
  function WrapI64(x: int): (r: i64)
    ensures -TWO63 <= x < TWO63 ==> r == x
  {
    (x + 0x8000_0000_0000_0000) % 0x1_0000_0000_0000_0000 - 0x8000_0000_0000_0000
  }

  /** Two integers with the same 64 low bits. */
  predicate Congruent(x: int, y: int) {
    (x - y) % 0x1_0000_0000_0000_0000 == 0
  }

  /** The one `i64` with the low bits of `x`. */
  lemma WrapCongruent(x: int)
    ensures Congruent(WrapI64(x), x)
  {
  }

  lemma SameWrap(x: int, y: int)
    requires Congruent(x, y)
    ensures WrapI64(x) == WrapI64(y)
  {
  }

  lemma WordMultiple(m: int)
    ensures (m * 0x1_0000_0000_0000_0000) % 0x1_0000_0000_0000_0000 == 0
  {
  }

  lemma CongruentProduct(x: int, y: int, k: int)
    requires Congruent(x, y)
    ensures Congruent(x * k, y * k)
  {
    var m := (x - y) / 0x1_0000_0000_0000_0000;
    assert x - y == m * 0x1_0000_0000_0000_0000;
    assert x * k - y * k == (x - y) * k;
    assert (m * 0x1_0000_0000_0000_0000) * k == (m * k) * 0x1_0000_0000_0000_0000;
    WordMultiple(m * k);
  }

  function WrapU64(x: int): (r: u64)
    ensures 0 <= x < TWO64 ==> r == x
  {
    x % 0x1_0000_0000_0000_0000
  }

  function Max(a: int, b: int): int {
    if a < b then b else a
  }

  /** Rust's integer division, which truncates toward zero. */
  function TruncDiv(a: int, b: int): int
    requires b > 0
  {
    if a >= 0 then a / b else -((-a) / b)
  }

  /** Rust's remainder, which takes the sign of the dividend. */
  function TruncRem(a: int, b: int): int
    requires b > 0
  {
    if a >= 0 then a % b else -((-a) % b)
  }

  lemma NonNegative(t: int, q: int)
    requires t >= 0 && q >= 0
    ensures t * q >= 0
  {
  }

  lemma Multiple(q: int, b: int, r: int)
    requires q * b + r >= 0 && 0 <= r < b
    ensures 0 <= q <= q * b
    ensures (q + 1) * b == q * b + b
    ensures q == 0 <==> q * b + r < b
  {
    if q > 0 {
      NonNegative(q - 1, b);
      NonNegative(q, b - 1);
    }
  }

  lemma Division(a: int, b: int)
    requires a >= 0 && b > 0
    ensures 0 <= a / b <= a
    ensures (a / b) * b <= a < (a / b + 1) * b
    ensures a / b == 0 <==> a < b
  {
    var q, r := a / b, a % b;
    assert a == q * b + r;
    Multiple(q, b, r);
  }
}
