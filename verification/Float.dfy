/**
 The little that is needed of IEEE 754 double precision: a rounding of the reals that is
 monotone, exact on the integers up to 2^53 and within relative error 2^-53 on normal numbers.
 */
module Float {
  import opened Prelude

  const TWO53: int := 0x20_0000_0000_0000

  function Abs(x: real): real {
    if x < 0.0 then -x else x
  }

  /** The magnitudes the module's arithmetic can reach, well inside the normal doubles. */
  predicate Normal(x: real) {
    Abs(x) * 18446744073709551616.0 >= 1.0 && Abs(x) <= 18446744073709551616.0
  }

  predicate Whole(x: real) {
    x.Floor as real == x && -9007199254740992.0 <= x <= 9007199254740992.0
  }

  ghost predicate IsRounding(f: real -> real) {
    && (forall x, y :: x <= y ==> f(x) <= f(y))
    && (forall x :: Whole(x) ==> f(x) == x)
    && (forall x :: Normal(x) ==> Abs(f(x) - x) * 9007199254740992.0 <= Abs(x))
  }

  type Rounding = f: real -> real | IsRounding(f) witness (x: real) => x

  /** `x as i64` on a double: truncation toward zero, saturating at the ends of the range. */
  function ToI64(x: real): i64 {
    if x >= TWO63 as real then TWO63 - 1
    else if x <= -(TWO63 as real) then -TWO63
    else if x >= 0.0 then x.Floor
    else -((-x).Floor)
  }

  /** The cast drops what follows the point, and stops at the ends of the range. */
  lemma ToI64Truncates(x: real)
    ensures var v := ToI64(x);
            && (0.0 <= x < 9223372036854775808.0 ==> v as real <= x < (v + 1) as real)
            && (-9223372036854775808.0 < x <= 0.0 ==> (v - 1) as real < x <= v as real)
            && (x >= 9223372036854775808.0 ==> v == 9223372036854775807)
            && (x <= -9223372036854775808.0 ==> v == -9223372036854775808)
  {
  }

  lemma OfInt(fl: Rounding, z: int)
    requires -TWO53 <= z <= TWO53
    ensures fl(z as real) == z as real
  {
  }

  lemma NonZero(fl: Rounding, z: int)
    requires z != 0
    ensures fl(z as real) != 0.0
    ensures z > 0 ==> fl(z as real) >= 1.0
  {
    OfInt(fl, 1);
    OfInt(fl, -1);
    assert z > 0 ==> fl(1.0) <= fl(z as real);
    assert z < 0 ==> fl(z as real) <= fl(-1.0);
  }

  /** `(a as f64 / b as f64) as i64`. */
  function Quotient(fl: Rounding, a: int, b: int): i64
    requires b != 0
  {
    NonZero(fl, b);
    ToI64(fl(fl(a as real) / fl(b as real)))
  }

  /** A rounded value strictly between two consecutive integers keeps its integer part. */
  lemma KeepsFloor(fl: Rounding, x: real, m: int, gap: real)
    requires 0 <= m < TWO53
    requires m as real <= x <= (m + 1) as real - gap
    requires x == 0.0 || Normal(x)
    requires Abs(x) < gap * 9007199254740992.0
    ensures fl(x).Floor == m
    ensures fl(x) >= 0.0
  {
    OfInt(fl, m);
    OfInt(fl, 0);
    assert fl(m as real) <= fl(x);
    assert fl(0.0) <= fl(x);
    if Normal(x) {
      assert Abs(fl(x) - x) * 9007199254740992.0 <= Abs(x);
    }
  }

  /** The same below zero, where truncation rounds up. */
  lemma KeepsCeiling(fl: Rounding, x: real, m: int, gap: real)
    requires 0 <= m < TWO53
    requires m as real <= -x <= (m + 1) as real - gap
    requires x == 0.0 || Normal(x)
    requires Abs(x) < gap * 9007199254740992.0
    ensures (-fl(x)).Floor == m
    ensures fl(x) <= 0.0
  {
    OfInt(fl, -m);
    OfInt(fl, 0);
    assert fl(x) <= fl((-m) as real);
    assert fl(x) <= fl(0.0);
    if Normal(x) {
      assert Abs(fl(x) - x) * 9007199254740992.0 <= Abs(x);
    }
  }

  lemma Cancel(x: real, y: real, d: real)
    requires d > 0.0 && x * d <= y * d
    ensures x <= y
  {
  }

  /** The real quotient of two integers below 2^53, against the integer quotient. */
  lemma QuotientGap(a: int, b: int)
    requires 0 <= a < TWO53 && 0 < b < TWO53
    ensures var x := a as real / b as real;
            && (a / b) as real <= x <= (a / b + 1) as real - 1.0 / b as real
            && x < (1.0 / b as real) * 9007199254740992.0
  {
  }

  lemma QuotientNormal(a: int, b: int)
    requires 0 < a < TWO53 && 0 < b < TWO53
    ensures a as real / b as real > 0.0
    ensures Normal(a as real / b as real)
  {
    var rb := b as real;
    var x := a as real / rb;
    assert x * rb == a as real;
    Cancel(0.0, x, rb);
    assert x * rb <= x * 9007199254740992.0;
    assert a as real <= 9007199254740992.0 && rb >= 1.0;
    assert 9007199254740992.0 * rb >= 9007199254740992.0;
    Cancel(x, 9007199254740992.0, rb);
  }

  lemma PositiveQuotient(fl: Rounding, a: int, b: int)
    requires 0 <= a < TWO53 && 0 < b < TWO53
    ensures var r := fl(a as real / b as real); r >= 0.0 && r.Floor == a / b
  {
    QuotientGap(a, b);
    if a > 0 { QuotientNormal(a, b); }
    KeepsFloor(fl, a as real / b as real, a / b, 1.0 / b as real);
  }

  lemma NegativeQuotient(fl: Rounding, a: int, b: int)
    requires 0 < a < TWO53 && 0 < b < TWO53
    ensures var r := fl(-(a as real / b as real)); r <= 0.0 && (-r).Floor == a / b
  {
    QuotientGap(a, b);
    QuotientNormal(a, b);
    KeepsCeiling(fl, -(a as real / b as real), a / b, 1.0 / b as real);
  }

  lemma Negated(x: real, y: real)
    requires y > 0.0
    ensures (-x) / y == -(x / y)
  {
  }

  /** Double division of integers below 2^53, truncated, is exact integer division. */
  lemma QuotientExact(fl: Rounding, a: int, b: int)
    requires -TWO53 < a < TWO53 && 0 < b < TWO53
    ensures Quotient(fl, a, b) == TruncDiv(a, b)
  {
    var ra, rb := a as real, b as real;
    OfInt(fl, a);
    OfInt(fl, b);
    assert Quotient(fl, a, b) == ToI64(fl(ra / rb));
    if a >= 0 {
      Division(a, b);
      PositiveQuotient(fl, a, b);
    } else {
      Division(-a, b);
      NegativeQuotient(fl, -a, b);
      Negated(ra, rb);
    }
  }

  lemma BothNegated(x: real, y: real)
    requires y != 0.0
    ensures (-x) / (-y) == x / y
  {
  }

  /** Two minus signs cancel in the doubles as well. */
  lemma QuotientOfNegated(fl: Rounding, a: int, b: int)
    requires -TWO53 < a < TWO53 && -TWO53 < b < TWO53 && b != 0
    ensures Quotient(fl, -a, -b) == Quotient(fl, a, b)
  {
    OfInt(fl, a);
    OfInt(fl, -a);
    OfInt(fl, b);
    OfInt(fl, -b);
    BothNegated(a as real, b as real);
    assert (-a) as real == -(a as real) && (-b) as real == -(b as real);
  }
}
