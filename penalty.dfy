/** The mask penalty of `calculatePenalty`: only maximal runs of equal modules along a row are
    scored, 3 + (n - 5) for a run of n >= 5; columns are never looked at. */
module QrPenalty {

  /** Points for one run of `n` equal modules. */
  function Score(n: int): int
  {
    if n >= 5 then 3 + (n - 5) else 0
  }

  function Sum(runs: seq<nat>): nat
  {
    if runs == [] then 0 else Sum(runs[..|runs| - 1]) + runs[|runs| - 1]
  }

  function SumScores(runs: seq<nat>): int
  {
    if runs == [] then 0 else SumScores(runs[..|runs| - 1]) + Score(runs[|runs| - 1])
  }

  /** The left-to-right scan of `calculatePenalty` over the first `x` modules of a row: the
      lengths of the runs already closed, and the length of the run still open. It is the state
      `(closed runs, count)` of the inner loop when its counter reaches `x`. */
  function Scan(row: seq<bool>, x: nat): (r: (seq<nat>, nat))
    requires 1 <= x <= |row|
  {
    if x == 1 then ([], 1)
    else
      var prev := Scan(row, x - 1);
      if row[x - 1] == row[x - 2] then (prev.0, prev.1 + 1) else (prev.0 + [prev.1], 1)
  }

  /** Every run the scan has seen is non-empty, and together they cover the first `x` modules. */
  lemma {:induction false} ScanShape(row: seq<bool>, x: nat)
    requires 1 <= x <= |row|
    ensures var r := Scan(row, x);
      r.1 > 0 && (forall k :: 0 <= k < |r.0| ==> r.0[k] > 0) && Sum(r.0) + r.1 == x
  {
    if x > 1 {
      ScanShape(row, x - 1);
      var prev := Scan(row, x - 1);
      assert (prev.0 + [prev.1])[..|prev.0|] == prev.0;
    }
  }

  /** One step of the scan: the module at `x` either lengthens the open run or closes it and
      opens a new one. */
  lemma ScanNext(row: seq<bool>, x: nat)
    requires 1 <= x < |row|
    ensures var prev := Scan(row, x);
      Scan(row, x + 1) == if row[x] == row[x - 1] then (prev.0, prev.1 + 1) else (prev.0 + [prev.1], 1)
  {
  }

  /** The scan of a whole non-empty row. */
  function ScanRow(row: seq<bool>): (seq<nat>, nat)
    requires |row| > 0
  {
    Scan(row, |row|)
  }

  /** The lengths of the maximal runs of equal values in `row`, left to right. */
  function Runs(row: seq<bool>): (runs: seq<nat>)
    ensures |runs| > 0 <==> |row| > 0
    ensures forall k :: 0 <= k < |runs| ==> runs[k] > 0
    ensures Sum(runs) == |row|
  {
    if row == [] then []
    else
      var r := ScanRow(row);
      ScanShape(row, |row|);
      assert (r.0 + [r.1])[..|r.0|] == r.0;
      r.0 + [r.1]
  }

  /** Penalty of one row: the closed runs' scores plus the open run's. */
  function RowPenalty(row: seq<bool>): int
  {
    if row == [] then 0 else SumScores(ScanRow(row).0) + Score(ScanRow(row).1)
  }

  /** Penalty of the first `n` rows of a grid. */
  function RowsPenalty(grid: seq<seq<bool>>, n: nat): int
    requires n <= |grid|
  {
    if n == 0 then 0 else RowsPenalty(grid, n - 1) + RowPenalty(grid[n - 1])
  }

  /** Penalty of a grid: the sum of its rows' penalties. */
  function GridPenalty(grid: seq<seq<bool>>): int
  {
    RowsPenalty(grid, |grid|)
  }

  /** Adding the penalty of row `y` to that of the rows above it. */
  lemma RowsPenaltyNext(grid: seq<seq<bool>>, y: nat, before: int, after: int)
    requires y < |grid| && before == RowsPenalty(grid, y) && after - before == RowPenalty(grid[y])
    ensures after == RowsPenalty(grid, y + 1)
  {
  }

  /** The penalty of a row is the sum of the scores of its maximal runs. */
  lemma RowPenaltyOfRuns(row: seq<bool>)
    ensures RowPenalty(row) == SumScores(Runs(row))
  {
    if row != [] {
      var r := ScanRow(row);
      assert (r.0 + [r.1])[..|r.0|] == r.0;
    }
  }

  lemma SumScoresSnoc(runs: seq<nat>, n: nat)
    ensures SumScores(runs + [n]) == SumScores(runs) + Score(n)
  {
    assert (runs + [n])[..|runs|] == runs;
  }

  /** The scan of the first `x` modules looks at those modules only. */
  lemma {:induction false} ScanPrefix(a: seq<bool>, b: seq<bool>, x: nat)
    requires 1 <= x <= |a| && x <= |b| && forall i :: 0 <= i < x ==> a[i] == b[i]
    ensures Scan(a, x) == Scan(b, x)
  {
    if x > 1 {
      ScanPrefix(a, b, x - 1);
    }
  }

  /** One more module: the scan either lengthens the open run or closes it and opens one of
      length 1. */
  lemma ScanSnoc(row: seq<bool>, b: bool)
    requires |row| > 0
    ensures var r := ScanRow(row);
      ScanRow(row + [b]) == if b == row[|row| - 1] then (r.0, r.1 + 1) else (r.0 + [r.1], 1)
  {
    ScanPrefix(row + [b], row, |row|);
  }

  /** `n` copies of `b`. */
  function Repeat(b: bool, n: nat): (r: seq<bool>)
    ensures |r| == n && forall i :: 0 <= i < n ==> r[i] == b
  {
    seq(n, _ => b)
  }

  /** The value of the `n`-th run (counting from 1) of a row that starts with `first`. */
  function RunValue(first: bool, n: nat): bool
  {
    if n <= 1 then first else !RunValue(first, n - 1)
  }

  /** Spell out runs that alternate in value, starting with `first`. */
  function Expand(first: bool, runs: seq<nat>): (row: seq<bool>)
    ensures |row| == Sum(runs)
  {
    if runs == [] then [] else Expand(first, runs[..|runs| - 1]) + Repeat(RunValue(first, |runs|), runs[|runs| - 1])
  }

  /** Appending one run to the runs appends its modules to the row. */
  lemma ExpandSnoc(first: bool, runs: seq<nat>, k: nat)
    ensures Expand(first, runs + [k]) == Expand(first, runs) + Repeat(RunValue(first, |runs| + 1), k)
  {
    assert (runs + [k])[..|runs|] == runs;
  }

  /** Lengthening the last run by one appends one module of its value. */
  lemma ExpandGrowLast(first: bool, init: seq<nat>, k: nat)
    ensures Expand(first, init + [k + 1]) == Expand(first, init + [k]) + [RunValue(first, |init| + 1)]
  {
    var v := RunValue(first, |init| + 1);
    ExpandSnoc(first, init, k + 1);
    ExpandSnoc(first, init, k);
    RepeatSnoc(v, k);
    var e := Expand(first, init);
    assert e + (Repeat(v, k) + [v]) == (e + Repeat(v, k)) + [v];
  }

  lemma RepeatSnoc(b: bool, n: nat)
    ensures Repeat(b, n + 1) == Repeat(b, n) + [b]
  {
  }

  /** The inductive step of `RunsExpand` for a module equal to the last one. */
  lemma ExpandStepSame(first: bool, prefix: seq<bool>, b: bool)
    requires |prefix| > 0 && b == prefix[|prefix| - 1]
    requires Expand(first, Runs(prefix)) == prefix
    requires b == RunValue(first, |Runs(prefix)|)
    ensures Expand(first, Runs(prefix + [b])) == prefix + [b]
    ensures b == RunValue(first, |Runs(prefix + [b])|)
  {
    var r := ScanRow(prefix);
    ScanSnoc(prefix, b);
    ExpandGrowLast(first, r.0, r.1);
  }

  /** The inductive step of `RunsExpand` for a module that differs from the last one. */
  lemma ExpandStepNew(first: bool, prefix: seq<bool>, b: bool)
    requires |prefix| > 0 && b != prefix[|prefix| - 1]
    requires Expand(first, Runs(prefix)) == prefix
    requires prefix[|prefix| - 1] == RunValue(first, |Runs(prefix)|)
    ensures Expand(first, Runs(prefix + [b])) == prefix + [b]
    ensures b == RunValue(first, |Runs(prefix + [b])|)
  {
    var runs := Runs(prefix);
    RunsSnocNew(prefix, b);
    ExpandSnoc(first, runs, 1);
    assert RunValue(first, |runs| + 1) == b;
    assert Repeat(b, 1) == [b];
  }

  /** A module that differs from the last one opens a new run. */
  lemma RunsSnocNew(prefix: seq<bool>, b: bool)
    requires |prefix| > 0 && b != prefix[|prefix| - 1]
    ensures Runs(prefix + [b]) == Runs(prefix) + [1]
  {
    ScanSnoc(prefix, b);
  }

  /** `Runs` is the run-length decomposition of a row: expanding the runs with alternating values
      from the row's first value gives the row back, so each run is maximal. */
  lemma {:induction false} RunsExpand(row: seq<bool>)
    requires |row| > 0
    ensures Expand(row[0], Runs(row)) == row
    ensures row[|row| - 1] == RunValue(row[0], |Runs(row)|)
    decreases |row|
  {
    var n := |row|;
    if n == 1 {
      assert Runs(row) == [1];
      ExpandSnoc(row[0], [], 1);
    } else {
      var prefix := row[..n - 1];
      var b := row[n - 1];
      assert row == prefix + [b];
      RunsExpand(prefix);
      assert prefix[0] == row[0];
      if b == prefix[n - 2] {
        ExpandStepSame(row[0], prefix, b);
      } else {
        ExpandStepNew(row[0], prefix, b);
      }
    }
  }

  /** A row scores at most its length. */
  lemma {:induction false} SumScoresBound(runs: seq<nat>)
    ensures 0 <= SumScores(runs) <= Sum(runs)
  {
    if runs != [] {
      SumScoresBound(runs[..|runs| - 1]);
    }
  }

  /** Runs shorter than five score nothing. */
  lemma {:induction false} SumScoresShort(runs: seq<nat>)
    requires forall k :: 0 <= k < |runs| ==> runs[k] < 5
    ensures SumScores(runs) == 0
  {
    if runs != [] {
      SumScoresShort(runs[..|runs| - 1]);
    }
  }

  lemma RowPenaltyBound(row: seq<bool>)
    ensures 0 <= RowPenalty(row) <= |row|
  {
    if row != [] {
      ScanShape(row, |row|);
      SumScoresBound(ScanRow(row).0);
    }
  }

  /** The side of the largest symbol, version 10. */
  const MAX_SIZE := 57

  /** A grid whose rows are no longer than the largest symbol scores at most 57 per row, so a
      symbol scores at most 57 * 57 = 3249, far below the `math.MaxInt32` starting value of the
      mask search. */
  lemma GridPenaltyBound(grid: seq<seq<bool>>)
    requires forall y :: 0 <= y < |grid| ==> |grid[y]| <= MAX_SIZE
    ensures 0 <= GridPenalty(grid) <= MAX_SIZE * |grid|
  {
    RowsPenaltyBound(grid, |grid|);
  }

  lemma {:induction false} RowsPenaltyBound(grid: seq<seq<bool>>, n: nat)
    requires n <= |grid| && forall y :: 0 <= y < |grid| ==> |grid[y]| <= MAX_SIZE
    ensures 0 <= RowsPenalty(grid, n) <= MAX_SIZE * n
  {
    if n > 0 {
      RowsPenaltyBound(grid, n - 1);
      RowPenaltyBound(grid[n - 1]);
    }
  }

  /** A row of equal modules is one run, left open by the scan. */
  lemma {:induction false} ConstantRowScan(b: bool, n: nat, x: nat)
    requires 1 <= x <= n
    ensures Scan(Repeat(b, n), x) == ([], x)
  {
    if x > 1 {
      ConstantRowScan(b, n, x - 1);
    }
  }

  /** ... which scores 3 + (n - 5) once it is five or more long. */
  lemma ConstantRowPenalty(b: bool, n: nat)
    requires n > 0
    ensures RowPenalty(Repeat(b, n)) == if n >= 5 then 3 + (n - 5) else 0
  {
    ConstantRowScan(b, n, n);
  }

  function Invert(row: seq<bool>): (r: seq<bool>)
    ensures |r| == |row| && forall i :: 0 <= i < |row| ==> r[i] == !row[i]
  {
    seq(|row|, i requires 0 <= i < |row| => !row[i])
  }

  /** Flipping every module of a row leaves its runs unchanged. */
  lemma {:induction false} ScanOfInverse(row: seq<bool>, x: nat)
    requires 1 <= x <= |row|
    ensures Scan(Invert(row), x) == Scan(row, x)
  {
    if x > 1 {
      ScanOfInverse(row, x - 1);
    }
  }

  /** ... and so its penalty: a mask and its complement score alike on every row. */
  lemma PenaltyOfInverse(row: seq<bool>)
    ensures RowPenalty(Invert(row)) == RowPenalty(row)
  {
    if row != [] {
      ScanOfInverse(row, |row|);
    }
  }

  /** `true, false, true, ...` of length `n`. */
  function Alternating(n: nat): (r: seq<bool>)
    ensures |r| == n && forall i :: 0 <= i < n ==> r[i] == (i % 2 == 0)
  {
    seq(n, i => i % 2 == 0)
  }

  /** In an alternating row every run has length 1. */
  lemma {:induction false} AlternatingScan(n: nat, x: nat)
    requires 1 <= x <= n
    ensures Scan(Alternating(n), x).1 == 1
    ensures forall k :: 0 <= k < |Scan(Alternating(n), x).0| ==> Scan(Alternating(n), x).0[k] == 1
  {
    if x > 1 {
      AlternatingScan(n, x - 1);
      var prev := Scan(Alternating(n), x - 1);
      assert forall k :: 0 <= k < |prev.0| ==> (prev.0 + [prev.1])[k] == 1;
    }
  }

  lemma AlternatingPenalty(n: nat)
    ensures RowPenalty(Alternating(n)) == 0
  {
    if n > 0 {
      AlternatingScan(n, n);
      SumScoresShort(ScanRow(Alternating(n)).0);
    }
  }

  /** Columns are not scored: a grid whose rows are all `true, false, true, ...` has constant
      columns, each a single run of `n` equal modules, yet its penalty is 0. */
  lemma ColumnsNotScored(n: nat)
    ensures var grid := seq(n, _ => Alternating(n));
      && (forall y, x :: 0 <= y < n && 0 <= x < n ==> grid[y][x] == grid[0][x])
      && GridPenalty(grid) == 0
  {
    AlternatingPenalty(n);
    ZeroRowsPenalty(seq(n, _ => Alternating(n)), n);
  }

  /** Rows that score nothing make a grid that scores nothing. */
  lemma {:induction false} ZeroRowsPenalty(grid: seq<seq<bool>>, n: nat)
    requires n <= |grid| && forall y :: 0 <= y < |grid| ==> RowPenalty(grid[y]) == 0
    ensures RowsPenalty(grid, n) == 0
  {
    if n > 0 {
      ZeroRowsPenalty(grid, n - 1);
    }
  }
}
