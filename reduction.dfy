/**
 * Reduction of every measurement column over the rows whose time lies in the trailing
 * window: the first measurement column (a cumulative distance) keeps its last valid value,
 * every other column the mean of its valid values, and a column without values is absent.
 */
module WindowReduction {
  import opened Wrappers
  import opened SparseRow
  import opened CellText

  /** The closed interval [start, stop] of times, in seconds. */
  datatype Window = Window(start: real, stop: real)

  predicate InWindow(w: Window, t: real)
  {
    w.start <= t <= w.stop
  }

  /** A row's time: its time cell is filled and parses. */
  function RowTime(row: Row, tempoCol: nat, parse: NumberParser): Option<real>
  {
    match FilledCell(row, tempoCol)
    case None => None
    case Some(text) => ParseNumber(parse, text)
  }

  /** A cell's value: the cell exists, is not blank after stripping, and parses. */
  function CellValue(row: Row, col: nat, parse: NumberParser): Option<real>
  {
    if col < |row| && row[col].Some? && !IsBlank(row[col].value) then ParseNumber(parse, row[col].value)
    else None
  }

  /** What one row contributes to column col: the cell's value, if the row's time lies in the window. */
  function Contribution(row: Row, tempoCol: nat, w: Window, col: nat, parse: NumberParser): Option<real>
  {
    match RowTime(row, tempoCol, parse)
    case None => None
    case Some(t) => if InWindow(w, t) then CellValue(row, col, parse) else None
  }

  function AsSeq(o: Option<real>): seq<real>
  {
    match o
    case None => []
    case Some(v) => [v]
  }

  /** The values column col receives, in row order. */
  function ColumnValues(rows: seq<Row>, tempoCol: nat, w: Window, col: nat, parse: NumberParser): seq<real>
    decreases |rows|
  {
    if rows == [] then []
    else ColumnValues(rows[..|rows| - 1], tempoCol, w, col, parse)
         + AsSeq(Contribution(rows[|rows| - 1], tempoCol, w, col, parse))
  }

  /** Sum in the order the values are added up. */
  function Sum(xs: seq<real>): real
    decreases |xs|
  {
    if xs == [] then 0.0 else Sum(xs[..|xs| - 1]) + xs[|xs| - 1]
  }

  /** sum / count, or None when there is nothing to average (never 0). */
  function Mean(xs: seq<real>): Option<real>
  {
    if |xs| == 0 then None else Some(Sum(xs) / (|xs| as real))
  }

  function Last(xs: seq<real>): Option<real>
  {
    if |xs| == 0 then None else Some(xs[|xs| - 1])
  }

  /** The reduced value of column col: last value for the column right of the time column, mean otherwise. */
  function Measurement(rows: seq<Row>, tempoCol: nat, w: Window, col: nat, parse: NumberParser): Option<real>
  {
    var values := ColumnValues(rows, tempoCol, w, col, parse);
    if col == tempoCol + 1 then Last(values) else Mean(values)
  }

  /** How many header columns lie right of the time column: max(0, numCols - tempoCol - 1). */
  function Width(numCols: nat, tempoCol: nat): nat
  {
    if tempoCol + 1 < numCols then numCols - tempoCol - 1 else 0
  }

  /** One reduced value per header column right of the time column, in column order. */
  function Measurements(numCols: nat, rows: seq<Row>, tempoCol: nat, w: Window, parse: NumberParser)
    : (m: seq<Option<real>>)
    ensures |m| == Width(numCols, tempoCol)
    ensures forall j :: 0 <= j < |m| ==> m[j] == Measurement(rows, tempoCol, w, tempoCol + 1 + j, parse)
  {
    seq(Width(numCols, tempoCol), j requires 0 <= j => Measurement(rows, tempoCol, w, tempoCol + 1 + j, parse))
  }

  /** What a contribution adds to a sum. */
  function Total(o: Option<real>): real
  {
    match o
    case None => 0.0
    case Some(v) => v
  }

  /** The last value after a contribution: a new value supersedes the previous one. */
  function Latest(previous: Option<real>, o: Option<real>): Option<real>
  {
    if o.Some? then o else previous
  }

  /** Adding one row's contribution to column col, as a sum, a count and a last value. */
  lemma ColumnValuesStep(rows: seq<Row>, r: nat, tempoCol: nat, w: Window, col: nat, parse: NumberParser)
    requires r < |rows|
    ensures var before := ColumnValues(rows[..r], tempoCol, w, col, parse);
            var after := ColumnValues(rows[..r + 1], tempoCol, w, col, parse);
            var c := Contribution(rows[r], tempoCol, w, col, parse);
            && after == before + AsSeq(c)
            && Sum(after) == Sum(before) + Total(c)
            && |after| == |before| + |AsSeq(c)|
            && Last(after) == Latest(Last(before), c)
  {
    assert rows[..r + 1][..r] == rows[..r];
    var before := ColumnValues(rows[..r], tempoCol, w, col, parse);
    var c := Contribution(rows[r], tempoCol, w, col, parse);
    if c.Some? {
      assert (before + [c.value])[..|before|] == before;
    } else {
      assert before + AsSeq(c) == before;
    }
  }

  /**
   * The body of the row loop: a row whose time lies in the window adds each valid
   * measurement cell to its column, as the new last value for the first column and to the
   * sum and count for the others.
   */
  method AccumulateRow(row: Row, tempoCol: nat, w: Window, parse: NumberParser,
                       sums0: seq<real>, counts0: seq<nat>, last0: Option<real>)
    returns (sums: seq<real>, counts: seq<nat>, lastValue: Option<real>)
    requires |sums0| == |counts0|
    ensures |sums| == |counts| == |sums0|
    ensures forall k :: 0 < k < |sums0| ==>
              var c := Contribution(row, tempoCol, w, tempoCol + 1 + k, parse);
              sums[k] == sums0[k] + Total(c) && counts[k] == counts0[k] + |AsSeq(c)|
    ensures |sums0| > 0 ==> sums[0] == sums0[0] && counts[0] == counts0[0]
    ensures lastValue == if |sums0| == 0 then last0 else Latest(last0, Contribution(row, tempoCol, w, tempoCol + 1, parse))
  {
    sums, counts, lastValue := sums0, counts0, last0;
    var width := |sums0|;
    var t := RowTime(row, tempoCol, parse);
    if t.None? || !InWindow(w, t.value) {
      return;
    }
    var j := 0;
    assert Total(None) == 0.0 && AsSeq(None) == [];
    while j < width
      invariant 0 <= j <= width
      invariant |sums| == |counts| == width
      invariant forall k :: 0 < k < width ==>
                  var c := if k < j then Contribution(row, tempoCol, w, tempoCol + 1 + k, parse) else None;
                  sums[k] == sums0[k] + Total(c) && counts[k] == counts0[k] + |AsSeq(c)|
      invariant width > 0 ==> sums[0] == sums0[0] && counts[0] == counts0[0]
      invariant lastValue == if j == 0 then last0 else Latest(last0, Contribution(row, tempoCol, w, tempoCol + 1, parse))
    {
      var v := CellValue(row, tempoCol + 1 + j, parse);
      if v.Some? {
        if j == 0 {
          lastValue := v;
        } else {
          sums := sums[j := sums[j] + v.value];
          counts := counts[j := counts[j] + 1];
        }
      }
      j := j + 1;
    }
  }

  /** The sums, counts and last value a column has received over the rows so far. */
  ghost predicate Accumulated(rows: seq<Row>, tempoCol: nat, w: Window, parse: NumberParser,
                              sums: seq<real>, counts: seq<nat>, lastValue: Option<real>)
  {
    && |sums| == |counts|
    && (forall k :: 0 < k < |sums| ==>
          var values := ColumnValues(rows, tempoCol, w, tempoCol + 1 + k, parse);
          sums[k] == Sum(values) && counts[k] == |values|)
    && (|sums| > 0 ==> lastValue == Last(ColumnValues(rows, tempoCol, w, tempoCol + 1, parse)))
  }

  /** The row loop of process_single_file, over the rows before the STOP row. */
  method AccumulateRows(rows: seq<Row>, tempoCol: nat, w: Window, parse: NumberParser, width: nat)
    returns (sums: seq<real>, counts: seq<nat>, lastValue: Option<real>)
    ensures |sums| == |counts| == width
    ensures width > 0 ==> sums[0] == 0.0 && counts[0] == 0
    ensures Accumulated(rows, tempoCol, w, parse, sums, counts, lastValue)
  {
    sums := seq(width, _ => 0.0);
    counts := seq(width, _ => 0);
    lastValue := None;
    var r := 0;
    while r < |rows|
      invariant 0 <= r <= |rows|
      invariant |sums| == |counts| == width
      invariant width > 0 ==> sums[0] == 0.0 && counts[0] == 0
      invariant Accumulated(rows[..r], tempoCol, w, parse, sums, counts, lastValue)
    {
      forall col | tempoCol < col
        ensures var before := ColumnValues(rows[..r], tempoCol, w, col, parse);
                var after := ColumnValues(rows[..r + 1], tempoCol, w, col, parse);
                var c := Contribution(rows[r], tempoCol, w, col, parse);
                Sum(after) == Sum(before) + Total(c) && |after| == |before| + |AsSeq(c)| &&
                Last(after) == Latest(Last(before), c)
      {
        ColumnValuesStep(rows, r, tempoCol, w, col, parse);
      }
      sums, counts, lastValue := AccumulateRow(rows[r], tempoCol, w, parse, sums, counts, lastValue);
      r := r + 1;
    }
    assert rows[..r] == rows;
  }

  /**
   * The reduction of process_single_file: the row loop, then one value per header column
   * right of the time column: the last value for the first, sum / count or None for the others.
   */
  method ReduceWindow(numCols: nat, rows: seq<Row>, tempoCol: nat, w: Window, parse: NumberParser)
    returns (m: seq<Option<real>>)
    ensures m == Measurements(numCols, rows, tempoCol, w, parse)
  {
    var width := Width(numCols, tempoCol);
    var sums, counts, lastValue := AccumulateRows(rows, tempoCol, w, parse, width);
    m := Assemble(sums, counts, lastValue);
    forall j | 0 <= j < width
      ensures m[j] == Measurement(rows, tempoCol, w, tempoCol + 1 + j, parse)
    {
      ReducedValue(rows, tempoCol, w, parse, sums, counts, lastValue, j);
    }
  }

  /** The value of column j from its sum, count and (for the first column) last value. */
  function Averaged(sums: seq<real>, counts: seq<nat>, lastValue: Option<real>, j: nat): Option<real>
    requires j < |sums| == |counts|
  {
    if j == 0 then lastValue
    else if counts[j] > 0 then Some(sums[j] / (counts[j] as real))
    else None
  }

  /** The averaging loop: the last value for the first column, sum / count or None for the others. */
  method Assemble(sums: seq<real>, counts: seq<nat>, lastValue: Option<real>) returns (m: seq<Option<real>>)
    requires |sums| == |counts|
    ensures |m| == |sums| && forall j :: 0 <= j < |m| ==> m[j] == Averaged(sums, counts, lastValue, j)
  {
    m := [];
    var j := 0;
    while j < |sums|
      invariant 0 <= j <= |sums|
      invariant |m| == j && forall k :: 0 <= k < j ==> m[k] == Averaged(sums, counts, lastValue, k)
    {
      if j == 0 {
        m := m + [lastValue];
      } else if counts[j] > 0 {
        m := m + [Some(sums[j] / (counts[j] as real))];
      } else {
        m := m + [None];
      }
      j := j + 1;
    }
  }

  /** From the accumulated sums, counts and last value, column j's reduced value is read off directly. */
  lemma ReducedValue(rows: seq<Row>, tempoCol: nat, w: Window, parse: NumberParser,
                     sums: seq<real>, counts: seq<nat>, lastValue: Option<real>, j: nat)
    requires Accumulated(rows, tempoCol, w, parse, sums, counts, lastValue) && j < |sums|
    ensures Measurement(rows, tempoCol, w, tempoCol + 1 + j, parse) == Averaged(sums, counts, lastValue, j)
  {
  }

  /** A column is absent (None, never 0) exactly when no row contributes a value to it; this holds for both kinds of column. */
  lemma {:induction false} MeasurementAbsentIff(rows: seq<Row>, tempoCol: nat, w: Window, col: nat, parse: NumberParser)
    ensures Measurement(rows, tempoCol, w, col, parse) == None <==>
            forall k :: 0 <= k < |rows| ==> Contribution(rows[k], tempoCol, w, col, parse) == None
    decreases |rows|
  {
    if rows != [] {
      var n := |rows| - 1;
      var init := rows[..n];
      MeasurementAbsentIff(init, tempoCol, w, col, parse);
      assert forall k :: 0 <= k < n ==> init[k] == rows[k];
    }
  }

  /**
   * The first measurement column (the distance) is the value of the LAST row that
   * contributes to it: later readings supersede earlier ones.
   */
  lemma {:induction false} DistanceIsLatestValue(rows: seq<Row>, tempoCol: nat, w: Window, parse: NumberParser, k: nat)
    requires k < |rows| && Contribution(rows[k], tempoCol, w, tempoCol + 1, parse).Some?
    requires forall k' :: k < k' < |rows| ==> Contribution(rows[k'], tempoCol, w, tempoCol + 1, parse) == None
    ensures Measurement(rows, tempoCol, w, tempoCol + 1, parse) == Contribution(rows[k], tempoCol, w, tempoCol + 1, parse)
    decreases |rows|
  {
    var n := |rows| - 1;
    if k < n {
      var init := rows[..n];
      assert forall k' :: 0 <= k' < n ==> init[k'] == rows[k'];
      DistanceIsLatestValue(init, tempoCol, w, parse, k);
    }
  }

  /** Every value a column receives is the contribution of some row. */
  lemma {:induction false} ValuesFromRows(rows: seq<Row>, tempoCol: nat, w: Window, col: nat, parse: NumberParser, i: nat)
    requires i < |ColumnValues(rows, tempoCol, w, col, parse)|
    ensures exists k :: 0 <= k < |rows| && Contribution(rows[k], tempoCol, w, col, parse) == Some(ColumnValues(rows, tempoCol, w, col, parse)[i])
    decreases |rows|
  {
    var n := |rows| - 1;
    var init := rows[..n];
    var before := ColumnValues(init, tempoCol, w, col, parse);
    if i < |before| {
      ValuesFromRows(init, tempoCol, w, col, parse, i);
      var k :| 0 <= k < |init| && Contribution(init[k], tempoCol, w, col, parse) == Some(before[i]);
      assert init[k] == rows[k];
    } else {
      assert Contribution(rows[n], tempoCol, w, col, parse) == Some(ColumnValues(rows, tempoCol, w, col, parse)[i]);
    }
  }

  lemma {:induction false} SumBounds(xs: seq<real>, lo: real, hi: real)
    requires forall i :: 0 <= i < |xs| ==> lo <= xs[i] <= hi
    ensures (|xs| as real) * lo <= Sum(xs) <= (|xs| as real) * hi
    decreases |xs|
  {
    if xs != [] {
      var n := |xs| - 1;
      SumBounds(xs[..n], lo, hi);
      assert (n as real) * lo + lo == (|xs| as real) * lo;
      assert (n as real) * hi + hi == (|xs| as real) * hi;
    }
  }

  lemma QuotientBounds(s: real, n: real, lo: real, hi: real)
    requires n > 0.0 && n * lo <= s <= n * hi
    ensures lo <= s / n <= hi
  {
    assert s == n * (s / n);
  }

  /** A mean column lies between any bounds that every contributing value respects. */
  lemma MeanWithinBounds(rows: seq<Row>, tempoCol: nat, w: Window, col: nat, parse: NumberParser, lo: real, hi: real)
    requires col != tempoCol + 1
    requires forall k :: 0 <= k < |rows| && Contribution(rows[k], tempoCol, w, col, parse).Some? ==>
               lo <= Contribution(rows[k], tempoCol, w, col, parse).value <= hi
    ensures Measurement(rows, tempoCol, w, col, parse).Some? ==>
              lo <= Measurement(rows, tempoCol, w, col, parse).value <= hi
  {
    var values := ColumnValues(rows, tempoCol, w, col, parse);
    forall i | 0 <= i < |values| ensures lo <= values[i] <= hi {
      ValuesFromRows(rows, tempoCol, w, col, parse, i);
    }
    if |values| > 0 {
      SumBounds(values, lo, hi);
      QuotientBounds(Sum(values), |values| as real, lo, hi);
    }
  }

  /** With a single contributing row, the column receives exactly that row's value. */
  lemma {:induction false} SingleValue(rows: seq<Row>, tempoCol: nat, w: Window, col: nat, parse: NumberParser, k: nat, v: real)
    requires k < |rows| && Contribution(rows[k], tempoCol, w, col, parse) == Some(v)
    requires forall k' :: 0 <= k' < |rows| && k' != k ==> Contribution(rows[k'], tempoCol, w, col, parse) == None
    ensures ColumnValues(rows, tempoCol, w, col, parse) == [v]
    decreases |rows|
  {
    var n := |rows| - 1;
    var init := rows[..n];
    assert forall k' :: 0 <= k' < n ==> init[k'] == rows[k'];
    if k < n {
      SingleValue(init, tempoCol, w, col, parse, k, v);
    } else {
      MeasurementAbsentIff(init, tempoCol, w, col, parse);
      assert ColumnValues(init, tempoCol, w, col, parse) == [];
    }
  }

  /** With a single contributing row, both kinds of column report that row's value: the mean of one value is the value. */
  lemma SingleContribution(rows: seq<Row>, tempoCol: nat, w: Window, col: nat, parse: NumberParser, k: nat, v: real)
    requires k < |rows| && Contribution(rows[k], tempoCol, w, col, parse) == Some(v)
    requires forall k' :: 0 <= k' < |rows| && k' != k ==> Contribution(rows[k'], tempoCol, w, col, parse) == None
    ensures Measurement(rows, tempoCol, w, col, parse) == Some(v)
  {
    SingleValue(rows, tempoCol, w, col, parse, k, v);
    assert [v][..0] == [];
    assert Sum([v]) == v;
    assert Mean([v]) == Some(v);
  }
}
