/** The limiter's own table of cases, run from an arbitrary start on an absent key. */
module TestTable {
  import opened Prelude
  import opened Float
  import opened Gcra
  import opened Advice

  /** Times in milliseconds: when, how much, and the expected remaining, reset, retry and decision. */
  datatype Row = Row(at: int, volume: int, remaining: i64, reset: int, retry: int, limited: bool)

  /** A burst of four over one a second. */
  const LIMITS: Limits := Limits(1_000_000_000, 5_000_000_000, 5)

  const ROWS: seq<Row> := [
    Row(0, 6, 5, 0, -1000, true),
    Row(0, 1, 4, 1000, -1000, false),
    Row(0, 1, 3, 2000, -1000, false),
    Row(0, 1, 2, 3000, -1000, false),
    Row(0, 1, 1, 4000, -1000, false),
    Row(0, 1, 0, 5000, -1000, false),
    Row(0, 1, 0, 5000, 1000, true),
    Row(3000, 1, 2, 3000, -1000, false),
    Row(3100, 1, 1, 3900, -1000, false),
    Row(4000, 1, 1, 4000, -1000, false),
    Row(8000, 1, 4, 1000, -1000, false),
    Row(9500, 1, 4, 1000, -1000, false),
    Row(9500, 0, 4, 1000, -1000, false),
    Row(9500, 2, 2, 3000, -1000, false),
    Row(9500, 5, 2, 3000, 3000, true)
  ]

  function Now(start: int, r: Row): int {
    start + r.at * 1_000_000
  }

  ghost predicate AnswersRow(fl: Rounding, start: int, s: Option<int>, r: Row) {
    var v := Judge(LIMITS, s, Now(start, r), r.volume * 1_000_000_000);
    v.limited == r.limited &&
    Finish(LIMITS, fl, v) == Reply(5, r.remaining, r.retry * 1_000_000, r.reset * 1_000_000)
  }

  /** What the key holds before row `k`. */
  function Before(start: int, k: nat): Option<int>
    requires k <= |ROWS|
  {
    if k == 0 then None
    else After(LIMITS, Before(start, k - 1), Now(start, ROWS[k - 1]), ROWS[k - 1].volume * 1_000_000_000)
  }

  /** When the schedule stands after each row, in milliseconds. */
  const ENDS: seq<int> := [0, 1000, 2000, 3000, 4000, 5000, 5000, 6000, 7000, 8000, 9000, 10500, 10500, 12500, 12500]

  lemma {:induction false} BeforeRow(start: int, k: nat)
    requires k <= |ROWS|
    ensures Before(start, k) == if k <= 1 then None else Some(start + ENDS[k - 1] * 1_000_000)
  {
    if k > 0 {
      BeforeRow(start, k - 1);
    }
  }

  lemma VerdictAnswers(fl: Rounding, start: int, s: Option<int>, r: Row)
    requires Judge(LIMITS, s, Now(start, r), r.volume * 1_000_000_000)
          == Verdict(r.limited, r.retry * 1_000_000, r.reset * 1_000_000)
    requires 0 <= r.reset <= 5000 && (5000 - r.reset) / 1000 == r.remaining
    ensures AnswersRow(fl, start, s, r)
  {
    var next := 5_000_000_000 - r.reset * 1_000_000;
    ShareOfWholes(fl, next, 1_000_000_000);
    assert next / 1_000 == (5000 - r.reset) * 1000;
  }

  /** The verdict row `k` expects. */
  ghost predicate Judged(start: int, k: nat)
    requires k < |ROWS|
  {
    var r := ROWS[k];
    Judge(LIMITS, Before(start, k), Now(start, r), r.volume * 1_000_000_000)
      == Verdict(r.limited, r.retry * 1_000_000, r.reset * 1_000_000)
  }

  lemma EarlyVerdict(start: int, k: nat)
    requires k < 8
    ensures Judged(start, k)
  {
    BeforeRow(start, k);
  }

  lemma LateVerdict(start: int, k: nat)
    requires 8 <= k < |ROWS|
    ensures Judged(start, k)
  {
    BeforeRow(start, k);
  }

  lemma RowAnswered(fl: Rounding, start: int, k: nat)
    requires k < |ROWS|
    ensures AnswersRow(fl, start, Before(start, k), ROWS[k])
  {
    if k < 8 { EarlyVerdict(start, k); } else { LateVerdict(start, k); }
    VerdictAnswers(fl, start, Before(start, k), ROWS[k]);
  }

  /** Every row of the table comes out as the limiter's tests expect it. */
  lemma TableReproduced(fl: Rounding, start: int)
    ensures forall k | 0 <= k < |ROWS| :: AnswersRow(fl, start, Before(start, k), ROWS[k])
  {
    forall k | 0 <= k < |ROWS| ensures AnswersRow(fl, start, Before(start, k), ROWS[k]) {
      RowAnswered(fl, start, k);
    }
  }
}
