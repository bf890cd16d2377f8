/** Which texts are numbers, told without parsing: an optional sign, then decimal digits in their places. */
module Numerals {
  import opened Prelude
  import opened Codec

  predicate IsDigit(d: char) {
    '0' <= d <= '9'
  }

  function Weight(d: char): nat
    requires IsDigit(d)
  {
    (d - '0') as nat
  }

  /** A nonempty run of decimal digits. */
  predicate Numeral(s: string) {
    s != "" && forall i | 0 <= i < |s| :: IsDigit(s[i])
  }

  function Power10(k: nat): nat {
    if k == 0 then 1 else 10 * Power10(k - 1)
  }

  /** Each digit counts for its place. */
  function Value(s: string): nat
    requires forall i | 0 <= i < |s| :: IsDigit(s[i])
  {
    if s == "" then 0 else Weight(s[0]) * Power10(|s| - 1) + Value(s[1..])
  }

  lemma Tenfold(d: nat, p: nat, v: nat, e: nat)
    ensures d * (10 * p) + (v * 10 + e) == (d * p + v) * 10 + e
  {
  }

  lemma {:induction false} ValueAppend(s: string, d: char)
    requires (forall i | 0 <= i < |s| :: IsDigit(s[i])) && IsDigit(d)
    ensures Value(s + [d]) == Value(s) * 10 + Weight(d)
  {
    if s == "" {
      assert s + [d] == [d];
      assert Value([d]) == Weight(d) * Power10(0) + Value([d][1..]);
    } else {
      ValueAppend(s[1..], d);
      assert (s + [d])[1..] == s[1..] + [d];
      Tenfold(Weight(s[0]), Power10(|s| - 1), Value(s[1..]), Weight(d));
    }
  }

  lemma NumeralSplit(s: string)
    requires |s| > 1
    ensures Numeral(s) <==> Numeral(s[..|s| - 1]) && IsDigit(s[|s| - 1])
  {
    var front := s[..|s| - 1];
    assert forall i | 0 <= i < |front| :: front[i] == s[i];
  }

  lemma ValueSplit(s: string)
    requires Numeral(s)
    ensures Value(s) == Value(s[..|s| - 1]) * 10 + Weight(s[|s| - 1])
  {
    var n := |s| - 1;
    assert s == s[..n] + [s[n]];
    ValueAppend(s[..n], s[n]);
  }

  /** Digits are read exactly where there are only digits, and for what they stand for. */
  lemma {:induction false} DigitsIff(s: string)
    ensures Digits(s) == if Numeral(s) then Some(Value(s)) else None
  {
    if |s| > 1 {
      DigitsIff(s[..|s| - 1]);
      NumeralSplit(s);
    }
    if Numeral(s) {
      ValueSplit(s);
    }
  }

  /** `s` is the digits `d`, with a plus sign or without. */
  predicate Unsigned(s: string, d: string) {
    Numeral(d) && (s == d || s == "+" + d)
  }

  predicate Negative(s: string, d: string) {
    Numeral(d) && s == "-" + d
  }

  /** `s` writes the number `v`. */
  ghost predicate WritesNat(s: string, v: int) {
    exists d :: Unsigned(s, d) && Value(d) == v
  }

  ghost predicate WritesInt(s: string, v: int) {
    WritesNat(s, v) || exists d :: Negative(s, d) && -(Value(d) as int) == v
  }

  function Bare(s: string): string {
    if s != "" && (s[0] == '+' || s[0] == '-') then s[1..] else s
  }

  lemma UnsignedBare(s: string, d: string)
    requires Unsigned(s, d)
    ensures d == Bare(s) && !(s != "" && s[0] == '-')
  {
    assert IsDigit(d[0]);
    if s == "+" + d {
      assert s[1..] == d;
    }
  }

  lemma NegativeBare(s: string, d: string)
    requires Negative(s, d)
    ensures d == Bare(s) && s[0] == '-'
  {
    assert s[1..] == d;
  }

  lemma BareUnsigned(s: string)
    requires Numeral(Bare(s))
    ensures if s[0] == '-' then Negative(s, Bare(s)) else Unsigned(s, Bare(s))
  {
    if s[0] == '-' {
      assert s == "-" + s[1..];
    } else if s[0] == '+' {
      assert s == "+" + s[1..];
    }
  }

  /** The texts read as a `u64`, exactly: those that write a number in range. */
  lemma ParseU64Iff(s: string, v: u64)
    ensures ParseU64(s) == Some(v) <==> WritesNat(s, v)
  {
    if WritesNat(s, v) {
      var d :| Unsigned(s, d) && Value(d) == v;
      UnsignedBare(s, d);
      DigitsIff(d);
    }
    if ParseU64(s) == Some(v) {
      DigitsIff(s);
      DigitsIff(Bare(s));
      BareUnsigned(s);
    }
  }

  /** And as an `i64`, the arguments of the command. */
  lemma ParseI64Iff(s: string, v: i64)
    ensures ParseI64(s) == Some(v) <==> WritesInt(s, v)
  {
    DigitsIff(Bare(s));
    if WritesNat(s, v) {
      var d :| Unsigned(s, d) && Value(d) == v;
      UnsignedBare(s, d);
    } else if WritesInt(s, v) {
      var d :| Negative(s, d) && -(Value(d) as int) == v;
      NegativeBare(s, d);
    }
    if ParseI64(s) == Some(v) {
      BareUnsigned(s);
    }
  }

  /** Numbers are written in the usual way: digits, and no zero in front of others. */
  lemma {:induction false} ToStringCanonical(n: nat)
    ensures Numeral(ToString(n)) && Value(ToString(n)) == n
    ensures ToString(n)[0] == '0' ==> ToString(n) == "0"
  {
    if n < 10 {
      assert ToString(n)[1..] == "";
      assert Value(ToString(n)) == n * Power10(0) + Value("");
    } else {
      ToStringCanonical(n / 10);
      ValueAppend(ToString(n / 10), Digit(n % 10));
      if n < 100 {
        assert n / 10 < 10;
      }
    }
  }
}
