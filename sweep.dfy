/**
 `get_indv_stats`: score the flat multi-seed lookup for every pair of depth
 bounds below a limit, skipping the pairs whose metrics are undefined. The
 printed lines are modelled as the sequence of rows they report.
 */
module DepthSweep {
  import opened CitationGraph
  import opened Aggregation
  import opened Scoring

  /** One printed line: the two depth bounds and the scores they gave. */
  datatype Row = Row(citesDepth: nat, citedDepth: nat, stats: Stats)

  /** The scoring of the union lookup with bounds `(i, j)`, or the error it raises. */
  function Cell(q: Endpoint, sources: seq<DocId>, expert: set<DocId>, i: nat, j: nat): Outcome<Stats> {
    DoStats(CitationsMultiple(q, sources, i, j, true), expert)
  }

  /** A scoring outcome for every pair of depth bounds. */
  type Table = (nat, nat) -> Outcome<Stats>

  /** The scoring of every pair of bounds, as one table. */
  function Cells(q: Endpoint, sources: seq<DocId>, expert: set<DocId>): Table {
    (i: nat, j: nat) => Cell(q, sources, expert, i, j)
  }

  /** The line printed for bounds `(i, j)`, if any: none when the scoring raises. */
  function Report(cells: Table, i: nat, j: nat): seq<Row> {
    match cells(i, j)
    case Ok(stats) => [Row(i, j, stats)]
    case ZeroDivisionError => []
  }

  /** The lines of the inner loop for cites bound `i` over cited bounds `0 .. n - 1`. */
  function RowCells(cells: Table, i: nat, n: nat): seq<Row> {
    if n == 0 then [] else RowCells(cells, i, n - 1) + Report(cells, i, n - 1)
  }

  /** The lines of the outer loop over cites bounds `0 .. m - 1`, each against cited bounds `0 .. n - 1`. */
  function Sweep(cells: Table, m: nat, n: nat): seq<Row> {
    if m == 0 then [] else Sweep(cells, m - 1, n) + RowCells(cells, m - 1, n)
  }

  /**
   The inner loop of `get_indv_stats`: for one cites bound, score every
   cited bound below the limit, skipping those that raise.
   */
  method ScoreRow(q: Endpoint, sources: seq<DocId>, expert: set<DocId>, i: nat, rangeLimit: nat)
    returns (rows: seq<Row>)
    ensures rows == RowCells(Cells(q, sources, expert), i, rangeLimit)
  {
    ghost var cells := Cells(q, sources, expert);
    rows := [];
    for j := 0 to rangeLimit
      invariant rows == RowCells(cells, i, j)
    {
      var found := CitationsMultiple(q, sources, i, j, true);
      var outcome := DoStats(found, expert);
      assert outcome == cells(i, j);
      if outcome.Ok? {
        rows := rows + [Row(i, j, outcome.value)];
      }
    }
  }

  /**
   `get_indv_stats(range_limit)` with the seed list and the reference set it
   reads passed in: the nested loops over both bounds, catching the
   division error and moving on.
   */
  method GetIndvStats(q: Endpoint, sources: seq<DocId>, expert: set<DocId>, rangeLimit: nat)
    returns (rows: seq<Row>)
    ensures rows == Sweep(Cells(q, sources, expert), rangeLimit, rangeLimit)
  {
    rows := [];
    for i := 0 to rangeLimit
      invariant rows == Sweep(Cells(q, sources, expert), i, rangeLimit)
    {
      var line := ScoreRow(q, sources, expert, i, rangeLimit);
      rows := rows + line;
    }
  }

  /** Row `a` is printed before row `b` by the nested loops. */
  predicate Before(a: Row, b: Row) {
    a.citesDepth < b.citesDepth || (a.citesDepth == b.citesDepth && a.citedDepth < b.citedDepth)
  }

  /** The lines come in strictly increasing order of their bounds. */
  predicate Ordered(rows: seq<Row>) {
    forall a, b :: 0 <= a < b < |rows| ==> Before(rows[a], rows[b])
  }

  /** A line reports a pair of bounds inside the limits and that pair's scores. */
  predicate Reports(cells: Table, m: nat, n: nat, r: Row) {
    r.citesDepth < m && r.citedDepth < n && cells(r.citesDepth, r.citedDepth) == Ok(r.stats)
  }

  /** Every line reports a pair of bounds inside the limits, with cites bound at least `low`. */
  predicate AllReport(cells: Table, low: nat, m: nat, n: nat, rows: seq<Row>) {
    forall k :: 0 <= k < |rows| ==> low <= rows[k].citesDepth && Reports(cells, m, n, rows[k])
  }

  /** Every line of the inner loop reports bound `i`, a cited bound below `n`, and that pair's scores. */
  lemma {:induction false} RowCellsSound(cells: Table, i: nat, n: nat)
    ensures AllReport(cells, i, i + 1, n, RowCells(cells, i, n))
  {
    if n > 0 {
      RowCellsSound(cells, i, n - 1);
      var prefix := RowCells(cells, i, n - 1);
      var last := Report(cells, i, n - 1);
      var rows := RowCells(cells, i, n);
      assert rows == prefix + last;
      forall k | 0 <= k < |rows| ensures i <= rows[k].citesDepth && Reports(cells, i + 1, n, rows[k]) {
        if k < |prefix| {
          assert rows[k] == prefix[k];
        } else {
          assert rows[k] == last[0];
        }
      }
    }
  }

  /** The inner loop prints a line for every cited bound whose scoring succeeds. */
  lemma {:induction false} RowCellsComplete(cells: Table, i: nat, n: nat, j: nat)
    requires j < n && cells(i, j).Ok?
    ensures Row(i, j, cells(i, j).value) in RowCells(cells, i, n)
  {
    var row := Row(i, j, cells(i, j).value);
    InAppend(RowCells(cells, i, n - 1), Report(cells, i, n - 1), row);
    if j < n - 1 {
      RowCellsComplete(cells, i, n - 1, j);
    } else {
      assert Report(cells, i, n - 1) == [row];
    }
  }

  /** The inner loop prints its lines in increasing cited bound. */
  lemma {:induction false} RowCellsOrdered(cells: Table, i: nat, n: nat)
    ensures Ordered(RowCells(cells, i, n))
  {
    if n > 0 {
      RowCellsOrdered(cells, i, n - 1);
      RowCellsSound(cells, i, n - 1);
      var prefix := RowCells(cells, i, n - 1);
      var last := Report(cells, i, n - 1);
      var rows := RowCells(cells, i, n);
      assert rows == prefix + last;
      forall a, b | 0 <= a < b < |rows| ensures Before(rows[a], rows[b]) {
        assert rows[a] == prefix[a];
        if b < |prefix| {
          assert rows[b] == prefix[b];
        } else {
          assert rows[b] == last[0];
        }
      }
    }
  }

  /**
   Every printed line reports bounds below the limits and the scores the
   lookup with those bounds gives.
   */
  lemma {:induction false} SweepSound(cells: Table, m: nat, n: nat)
    ensures AllReport(cells, 0, m, n, Sweep(cells, m, n))
  {
    if m > 0 {
      SweepSound(cells, m - 1, n);
      RowCellsSound(cells, m - 1, n);
      var prefix := Sweep(cells, m - 1, n);
      var tail := RowCells(cells, m - 1, n);
      var rows := Sweep(cells, m, n);
      assert rows == prefix + tail;
      forall k | 0 <= k < |rows| ensures 0 <= rows[k].citesDepth && Reports(cells, m, n, rows[k]) {
        if k < |prefix| {
          assert rows[k] == prefix[k];
        } else {
          assert rows[k] == tail[k - |prefix|];
        }
      }
    }
  }

  /** A line of either part is a line of the whole. */
  lemma InAppend(a: seq<Row>, b: seq<Row>, x: Row)
    ensures x in a + b <==> x in a || x in b
  {
  }

  /** Every pair of bounds below the limits whose scoring succeeds gets its line. */
  lemma {:induction false} SweepComplete(cells: Table, m: nat, n: nat, i: nat, j: nat)
    requires i < m && j < n && cells(i, j).Ok?
    ensures Row(i, j, cells(i, j).value) in Sweep(cells, m, n)
  {
    var row := Row(i, j, cells(i, j).value);
    InAppend(Sweep(cells, m - 1, n), RowCells(cells, m - 1, n), row);
    if i < m - 1 {
      SweepComplete(cells, m - 1, n, i, j);
    } else {
      RowCellsComplete(cells, i, n, j);
    }
  }

  /** The lines come in row-major order of the bounds, so no pair is reported twice. */
  lemma {:induction false} SweepOrdered(cells: Table, m: nat, n: nat)
    ensures Ordered(Sweep(cells, m, n))
  {
    if m > 0 {
      SweepOrdered(cells, m - 1, n);
      SweepSound(cells, m - 1, n);
      RowCellsOrdered(cells, m - 1, n);
      RowCellsSound(cells, m - 1, n);
      var prefix := Sweep(cells, m - 1, n);
      var tail := RowCells(cells, m - 1, n);
      var rows := Sweep(cells, m, n);
      assert rows == prefix + tail;
      forall a, b | 0 <= a < b < |rows| ensures Before(rows[a], rows[b]) {
        if b < |prefix| {
          assert rows[a] == prefix[a] && rows[b] == prefix[b];
        } else if a < |prefix| {
          assert rows[a] == prefix[a] && rows[b] == tail[b - |prefix|];
        } else {
          assert rows[a] == tail[a - |prefix|] && rows[b] == tail[b - |prefix|];
        }
      }
    }
  }
}
