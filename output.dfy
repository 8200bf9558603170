/** What a run hands back (adaptivetau.cpp:349-392): the time series as a
    column-major matrix with named columns, wrapped together with the halting
    transition when the model has halting transitions. */
module Output {
  import opened Types
  import opened Decimal

  /** The result of GetResult: the bare time series, or the time series
      together with the 1-based halting transition that ended the run (`None`
      standing for R's `NA`). */
  datatype SimResult =
    | Dynamics(series: seq<TimePoint>)
    | WithHalting(dynamics: seq<TimePoint>, haltingTransition: Option<nat>)

  /** GetResult: wrap the series when the halting list is nonempty, reporting
      the last transition (1-based) if it was a halting one. */
  function ResultOf(series: seq<TimePoint>, haltList: seq<nat>, cats: seq<Cat>, last: int): (r: SimResult)
    ensures r.Dynamics? <==> haltList == []
    ensures r.Dynamics? ==> r.series == series
    ensures r.WithHalting? ==> r.dynamics == series
  {
    if haltList == [] then Dynamics(series)
    else if 0 <= last < |cats| && cats[last] == Halting then WithHalting(series, Some(last + 1))
    else WithHalting(series, None)
  }

  /** The reported halting transition is the 1-based number of the last
      transition, and it is reported exactly when that transition halts. */
  lemma HaltingFieldIsLastTransition(series: seq<TimePoint>, haltList: seq<nat>, cats: seq<Cat>, last: int)
    requires haltList != []
    ensures var r := ResultOf(series, haltList, cats, last);
      && (r.haltingTransition.Some? <==> 0 <= last < |cats| && cats[last] == Halting)
      && (r.haltingTransition.Some? ==>
            1 <= r.haltingTransition.value <= |cats| && r.haltingTransition.value == last + 1
            && cats[r.haltingTransition.value - 1] == Halting)
  {
  }

  // ---------------------------------------------------------------------
  // Column names

  /** The default name of state column `i` (0-based): "x" and `i + 1`. */
  function DefaultName(i: nat): string {
    "x" + NatToDecimal(i + 1)
  }

  /** The name of state column `i`: the variable's name when the names vector
      is long enough, else the default. */
  function ColumnName(names: Option<seq<string>>, i: nat): string {
    if names.Some? && |names.value| > i then names.value[i] else DefaultName(i)
  }

  /** The column names: "time" followed by one name per state variable. */
  method ColumnNames(names: Option<seq<string>>, n: nat) returns (cols: seq<string>)
    ensures |cols| == n + 1 && cols[0] == "time"
    ensures forall i :: 0 <= i < n ==> cols[i + 1] == ColumnName(names, i)
  {
    cols := ["time"];
    var i := 0;
    while i < n
      invariant 0 <= i <= n
      invariant |cols| == i + 1 && cols[0] == "time"
      invariant forall k :: 0 <= k < i ==> cols[k + 1] == ColumnName(names, k)
    {
      if names.Some? && |names.value| > i {
        cols := cols + [names.value[i]];
      } else {
        var oss := "x" + NatToDecimal(i + 1);
        cols := cols + [oss];
      }
      i := i + 1;
    }
  }

  /** Default names never collide with each other nor with "time". */
  lemma DefaultNamesDistinct(i: nat, k: nat)
    ensures i != k ==> DefaultName(i) != DefaultName(k)
    ensures DefaultName(i) != "time"
  {
    assert DefaultName(i)[0] == 'x';
    if i != k && DefaultName(i) == DefaultName(k) {
      assert DefaultName(i)[1..] == NatToDecimal(i + 1);
      assert DefaultName(k)[1..] == NatToDecimal(k + 1);
      DigitsOfDecimal(i + 1);
      DigitsOfDecimal(k + 1);
    }
  }

  // ---------------------------------------------------------------------
  // The matrix layout

  /** Multiplying by a natural number keeps order. */
  lemma {:induction false} MulMono(a: nat, b: nat, c: nat)
    requires a <= b
    ensures a * c <= b * c
    decreases b - a
  {
    if a < b {
      MulMono(a, b - 1, c);
      assert b * c == (b - 1) * c + c;
    }
  }

  /** A strictly smaller factor gives a product smaller by at least `c`. */
  lemma MulGap(a: nat, b: nat, c: nat)
    ensures a < b ==> a * c + c <= b * c
  {
    if a < b {
      MulMono(a + 1, b, c);
      assert (a + 1) * c == a * c + c;
    }
  }

  /** Column-major index arithmetic: index `col * rows + row` is row `row` of
      column `col`. */
  lemma IndexSplit(col: nat, row: nat, rows: nat)
    requires row < rows
    ensures (col * rows + row) / rows == col && (col * rows + row) % rows == row
  {
    var a := col * rows + row;
    var q, r := a / rows, a % rows;
    assert a == q * rows + r;
    MulGap(q, col, rows);
    MulGap(col, q, rows);
  }

  /** An index below `rows * (n + 1)` lies in one of the first `n + 1` columns. */
  lemma ColumnBound(k: nat, rows: nat, n: nat)
    requires rows > 0 && k < rows * (n + 1)
    ensures k / rows <= n
  {
    var q := k / rows;
    assert k == q * rows + k % rows;
    assert rows * (n + 1) == n * rows + rows;
    MulGap(n, q, rows);
  }

  /** Where column `col` of row `row` lives in the flat matrix. */
  lemma CellIndex(col: nat, row: nat, rows: nat, n: nat)
    requires row < rows && col <= n
    ensures col * rows + row < rows * (n + 1)
    ensures (col * rows + row) / rows == col && (col * rows + row) % rows == row
  {
    IndexSplit(col, row, rows);
    assert (col + 1) * rows == col * rows + rows;
    assert rows * (n + 1) == (n + 1) * rows;
    MulMono(col + 1, n + 1, rows);
  }

  /** The entry at flat index `k` of the column-major matrix: column
      `k / rows` and row `k % rows`, column 0 holding the time and column
      `c > 0` state variable `c - 1`. */
  function Entry(ts: seq<TimePoint>, n: nat, k: nat): real
    requires forall r :: 0 <= r < |ts| ==> |ts[r].x| == n
    requires k < |ts| * (n + 1)
  {
    var rows := |ts|;
    ColumnBound(k, rows, n);
    var col, row := k / rows, k % rows;
    if col == 0 then ts[row].t else ts[row].x[col - 1] as real
  }

  /** The layout: row `row` of column 0 is that point's time, and of column
      `col + 1` its value of state variable `col`. */
  lemma EntryLayout(ts: seq<TimePoint>, n: nat, col: nat, row: nat)
    requires forall r :: 0 <= r < |ts| ==> |ts[r].x| == n
    requires row < |ts| && col < n
    ensures row < |ts| * (n + 1) && Entry(ts, n, row) == ts[row].t
    ensures (col + 1) * |ts| + row < |ts| * (n + 1)
    ensures Entry(ts, n, (col + 1) * |ts| + row) == ts[row].x[col] as real
  {
    CellIndex(0, row, |ts|, n);
    CellIndex(col + 1, row, |ts|, n);
  }

  /** Writes row `t` of the matrix: the time, then each state variable. */
  method FillRow(vals: array<real>, ts: seq<TimePoint>, n: nat, t: nat)
    requires forall r :: 0 <= r < |ts| ==> |ts[r].x| == n
    requires t < |ts| && vals.Length == |ts| * (n + 1)
    modifies vals
    ensures forall k :: 0 <= k < vals.Length && k % |ts| == t ==> vals[k] == Entry(ts, n, k)
    ensures forall k :: 0 <= k < vals.Length && k % |ts| != t ==> vals[k] == old(vals[k])
  {
    var rows := |ts|;
    CellIndex(0, t, rows, n);
    vals[t] := ts[t].t;
    var i := 0;
    while i < n
      invariant 0 <= i <= n
      invariant forall k :: 0 <= k < vals.Length && k % rows != t ==> vals[k] == old(vals[k])
      invariant forall k :: 0 <= k < vals.Length && k % rows == t && k / rows <= i ==> vals[k] == Entry(ts, n, k)
    {
      var idx := (i + 1) * rows + t;
      CellIndex(i + 1, t, rows, n);
      ghost var prev := vals[..];
      vals[idx] := ts[t].x[i] as real;
      forall k | 0 <= k < vals.Length && k % rows == t && k / rows <= i + 1 ensures vals[k] == Entry(ts, n, k) {
        if k / rows == i + 1 {
          assert k == (k / rows) * rows + k % rows;
          assert k == idx;
        } else {
          assert vals[k] == prev[k];
        }
      }
      i := i + 1;
    }
    forall k | 0 <= k < vals.Length && k % rows == t ensures k / rows <= n {
      ColumnBound(k, rows, n);
    }
  }

  /** The time series as a `rows x (n + 1)` column-major matrix. */
  method TimeSeriesMatrix(ts: seq<TimePoint>, n: nat) returns (vals: array<real>)
    requires forall r :: 0 <= r < |ts| ==> |ts[r].x| == n
    ensures fresh(vals) && vals.Length == |ts| * (n + 1)
    ensures forall k :: 0 <= k < vals.Length ==> vals[k] == Entry(ts, n, k)
  {
    var rows := |ts|;
    vals := new real[rows * (n + 1)];
    var t := 0;
    while t < rows
      invariant 0 <= t <= rows
      invariant forall k :: 0 <= k < vals.Length && k % rows < t ==> vals[k] == Entry(ts, n, k)
    {
      FillRow(vals, ts, n, t);
      t := t + 1;
    }
  }
}
