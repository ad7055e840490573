/**
 * The column-annotation plottable of the correlation plot: one row of
 * annotation cells per `y`, drawn as maximal runs of equal consecutive values.
 * Pixel geometry is left out: rendering a run is appending it to the output.
 */
module ColumnAnnotations {
  import Collections

  /** `width` consecutive cells starting at column `left`, all showing `value`. */
  datatype Run = Run(left: nat, width: nat, value: string)

  /** A run as drawn: the row it belongs to and whether that row is selected. */
  datatype DrawnRun = DrawnRun(y: nat, selected: bool, run: Run)

  /** A stored row: the annotation columns to show, the selection flag, and the
      annotation's values (the column annotation the row points at). */
  datatype Row = Row(indices: seq<nat>, selected: bool, annotation: seq<string>)

  /** Every index of the row names a value of its annotation. */
  predicate RowValid(row: Row)
  {
    forall k :: 0 <= k < |row.indices| ==> row.indices[k] < |row.annotation|
  }

  /** The values a row shows, column by column. */
  function RowValues(row: Row): (vals: seq<string>)
    requires RowValid(row)
    ensures |vals| == |row.indices|
    ensures forall k :: 0 <= k < |vals| ==> vals[k] == row.annotation[row.indices[k]]
  {
    seq(|row.indices|, k requires 0 <= k < |row.indices| => row.annotation[row.indices[k]])
  }

  /** One step of the drawing loop: the next cell, at column `n`, widens the
      last run when it shows the same value and opens a new run otherwise. */
  function Extend(init: seq<Run>, v: string, n: nat): (r: seq<Run>)
    ensures |r| == if init != [] && init[|init| - 1].value == v then |init| else |init| + 1
  {
    if init != [] && init[|init| - 1].value == v then
      init[..|init| - 1] + [Run(init[|init| - 1].left, init[|init| - 1].width + 1, v)]
    else
      init + [Run(n, 1, v)]
  }

  /** The runs of a row of values, extended one value at a time from the left,
      the order in which the drawing loop meets them. */
  function Segments(vals: seq<string>): (r: seq<Run>)
    ensures r == [] <==> vals == []
  {
    if vals == [] then [] else Extend(Segments(vals[..|vals| - 1]), vals[|vals| - 1], |vals| - 1)
  }

  /** `n` copies of `v`. */
  function Repeat(v: string, n: nat): (r: seq<string>)
    ensures |r| == n && forall k :: 0 <= k < n ==> r[k] == v
  {
    if n == 0 then [] else Repeat(v, n - 1) + [v]
  }

  /** The cells a sequence of runs covers, left to right. */
  function Expand(runs: seq<Run>): seq<string>
  {
    if runs == [] then [] else Expand(runs[..|runs| - 1]) + Repeat(runs[|runs| - 1].value, runs[|runs| - 1].width)
  }

  /** The runs tile a row of `n` cells: each run is non-empty, starts where
      the previous one ended (the first at 0), stays inside the row, and the
      last one ends at the end of the row. */
  ghost predicate Tiles(runs: seq<Run>, n: nat)
  {
    && (forall i :: 0 <= i < |runs| ==> runs[i].width >= 1 && runs[i].left + runs[i].width <= n)
    && (|runs| > 0 ==> runs[0].left == 0)
    && (forall i :: 0 < i < |runs| ==> runs[i].left == runs[i - 1].left + runs[i - 1].width)
    && (if runs == [] then n == 0 else runs[|runs| - 1].left + runs[|runs| - 1].width == n)
  }

  /** Every cell a run covers holds the run's value. */
  ghost predicate Holds(runs: seq<Run>, vals: seq<string>)
  {
    forall i, p :: 0 <= i < |runs| && runs[i].left <= p < runs[i].left + runs[i].width && p < |vals| ==>
      vals[p] == runs[i].value
  }

  /** Neighbouring runs differ in value, so no run could be merged with the next. */
  ghost predicate Alternates(runs: seq<Run>)
  {
    forall i :: 0 < i < |runs| ==> runs[i].value != runs[i - 1].value
  }

  /** `runs` splits `vals` into maximal runs: the runs tile the row, each
      holds one value, and each differs in value from its predecessor. */
  ghost predicate IsSegmentation(runs: seq<Run>, vals: seq<string>)
  {
    Tiles(runs, |vals|) && Holds(runs, vals) && Alternates(runs)
  }

  /** Extending by one cell keeps the tiling of a row one cell longer. */
  lemma ExtendTiles(init: seq<Run>, n: nat, v: string)
    requires Tiles(init, n)
    ensures Tiles(Extend(init, v, n), n + 1)
  {
    var segs := Extend(init, v, n);
    assert forall i :: 0 <= i < |init| - 1 ==> segs[i] == init[i];
    if !(init != [] && init[|init| - 1].value == v) {
      assert forall i :: 0 <= i < |init| ==> segs[i] == init[i];
    }
  }

  /** Extending by one cell keeps every run holding its value. */
  lemma ExtendHolds(init: seq<Run>, pre: seq<string>, v: string)
    requires Holds(init, pre) && Tiles(init, |pre|)
    ensures Holds(Extend(init, v, |pre|), pre + [v])
  {
    var segs := Extend(init, v, |pre|);
    var vals := pre + [v];
    forall i, p | 0 <= i < |segs| && segs[i].left <= p < segs[i].left + segs[i].width && p < |vals|
      ensures vals[p] == segs[i].value
    {
      if p < |pre| {
        assert segs[i].value == init[i].value;
        assert init[i].left <= p < init[i].left + init[i].width;
        assert vals[p] == pre[p];
      }
    }
  }

  /** Extending by one cell keeps neighbouring runs different. */
  lemma ExtendAlternates(init: seq<Run>, v: string, n: nat)
    requires Alternates(init)
    ensures Alternates(Extend(init, v, n))
  {
    var segs := Extend(init, v, n);
    assert forall i :: 0 <= i < |init| - 1 ==> segs[i] == init[i];
    if !(init != [] && init[|init| - 1].value == v) {
      assert forall i :: 0 <= i < |init| ==> segs[i] == init[i];
    }
  }

  /** Appending a value to a segmented row keeps its runs a segmentation. */
  lemma ExtendSegmentation(pre: seq<string>, v: string)
    requires IsSegmentation(Segments(pre), pre)
    ensures IsSegmentation(Segments(pre + [v]), pre + [v])
  {
    var init := Segments(pre);
    assert (pre + [v])[..|pre|] == pre;
    assert Segments(pre + [v]) == Extend(init, v, |pre|);
    ExtendTiles(init, |pre|, v);
    ExtendHolds(init, pre, v);
    ExtendAlternates(init, v, |pre|);
  }

  /** The incremental runs are the maximal-run segmentation of the row. */
  lemma {:induction false} SegmentsAreMaximalRuns(vals: seq<string>)
    ensures IsSegmentation(Segments(vals), vals)
  {
    if vals != [] {
      var pre := vals[..|vals| - 1];
      assert vals == pre + [vals[|vals| - 1]];
      SegmentsAreMaximalRuns(pre);
      ExtendSegmentation(pre, vals[|vals| - 1]);
    }
  }

  /** Only the last run of a segmentation reaches the end of the row. */
  lemma LastRunIff(r: seq<Run>, vals: seq<string>, i: nat)
    requires IsSegmentation(r, vals) && i < |r|
    ensures r[i].left + r[i].width == |vals| <==> i == |r| - 1
  {
    if i < |r| - 1 {
      assert r[i + 1].left == r[i].left + r[i].width;
    }
  }

  /** Two segmentations whose runs start together cannot differ in where
      the first of them ends: the second one's boundary would split a run of
      equal values in the first. */
  lemma RunNotWider(r1: seq<Run>, r2: seq<Run>, vals: seq<string>, i: nat)
    requires IsSegmentation(r1, vals) && IsSegmentation(r2, vals)
    requires i < |r1| && i < |r2| && r1[i].left == r2[i].left
    ensures r1[i].width <= r2[i].width
  {
    var l := r1[i].left;
    var q := l + r2[i].width;
    if q < |vals| {
      LastRunIff(r2, vals, i);
      assert r2[i + 1].left == q;
      assert vals[q] == r2[i + 1].value;
      assert vals[l] == r2[i].value;
      assert vals[l] == r1[i].value;
    }
  }

  /** The maximal-run segmentation of a row is unique. */
  lemma SegmentationUnique(r1: seq<Run>, r2: seq<Run>, vals: seq<string>)
    requires IsSegmentation(r1, vals) && IsSegmentation(r2, vals)
    ensures r1 == r2
  {
    var n := if |r1| < |r2| then |r1| else |r2|;
    var i := 0;
    while i < n
      invariant 0 <= i <= n
      invariant forall k :: 0 <= k < i ==> r1[k] == r2[k]
    {
      assert r1[i].left == r2[i].left by {
        if i > 0 { assert r1[i - 1] == r2[i - 1]; }
      }
      RunNotWider(r1, r2, vals, i);
      RunNotWider(r2, r1, vals, i);
      assert r1[i].value == vals[r1[i].left] == r2[i].value;
      i := i + 1;
    }
    if n > 0 {
      LastRunIff(r1, vals, n - 1);
      LastRunIff(r2, vals, n - 1);
    }
  }

  /** Expanding one more run appends its cells. */
  lemma ExpandAppend(init: seq<Run>, r: Run)
    ensures Expand(init + [r]) == Expand(init) + Repeat(r.value, r.width)
  {
    assert (init + [r])[..|init|] == init;
  }

  /** Extending by one cell appends that cell to the expansion. */
  lemma ExpandExtend(init: seq<Run>, v: string, n: nat)
    ensures Expand(Extend(init, v, n)) == Expand(init) + [v]
  {
    if init != [] && init[|init| - 1].value == v {
      var last := init[|init| - 1];
      var front := init[..|init| - 1];
      assert init == front + [last];
      ExpandAppend(front, last);
      ExpandAppend(front, Run(last.left, last.width + 1, v));
    } else {
      ExpandAppend(init, Run(n, 1, v));
    }
  }

  /** Drawing the runs back cell by cell reproduces the row. */
  lemma {:induction false} ExpandSegments(vals: seq<string>)
    ensures Expand(Segments(vals)) == vals
  {
    if vals != [] {
      var pre := vals[..|vals| - 1];
      var v := vals[|vals| - 1];
      ExpandSegments(pre);
      ExpandExtend(Segments(pre), v, |pre|);
      assert vals == pre + [v];
    }
  }

  /** The drawing loop's state after the first `i` cells: the runs already
      rendered, followed by the run still being widened. */
  ghost predicate Pending(vals: seq<string>, i: nat, runs: seq<Run>, left: nat, value: string)
  {
    0 < i <= |vals| && left < i && Segments(vals[..i]) == runs + [Run(left, i - left, value)]
  }

  /** One cell of the drawing loop: a cell showing the pending value widens the
      pending run, any other cell renders it and starts a new one. */
  lemma PendingStep(vals: seq<string>, i: nat, runs: seq<Run>, left: nat, value: string)
    requires Pending(vals, i, runs, left, value) && i < |vals|
    ensures vals[i] == value ==> Pending(vals, i + 1, runs, left, value)
    ensures vals[i] != value ==> Pending(vals, i + 1, runs + [Run(left, i - left, value)], i, vals[i])
  {
    var cur := Run(left, i - left, value);
    assert vals[..i + 1][..i] == vals[..i];
    assert Segments(vals[..i + 1]) == Extend(runs + [cur], vals[i], i);
    assert (runs + [cur])[..|runs|] == runs;
  }

  /** The run-splitting loop of `draw` for one non-empty row; rendering a run
      is appending it to `runs`. */
  method SegmentRow(vals: seq<string>) returns (runs: seq<Run>)
    requires vals != []
    ensures runs == Segments(vals) && |runs| >= 1
  {
    var left: nat := 0;
    var right: nat := 0;
    var width: nat := 0;
    var currentValue := vals[0];
    runs := [];
    for i := 0 to |vals|
      invariant right == i && width == right - left
      invariant i == 0 ==> runs == [] && left == 0 && currentValue == vals[0]
      invariant i > 0 ==> Pending(vals, i, runs, left, currentValue)
    {
      var value := vals[i];
      if i == 0 {
        assert vals[..1] == [vals[0]];
      } else {
        PendingStep(vals, i, runs, left, currentValue);
      }
      if value != currentValue {
        runs := runs + [Run(left, width, currentValue)];
        left := right;
        currentValue := value;
      }
      right := right + 1;
      width := right - left;
    }
    runs := runs + [Run(left, width, currentValue)];
    assert vals[..|vals|] == vals;
  }

  /** Runs of row `y` tagged with the row and its selection flag. */
  function Tag(y: nat, selected: bool, runs: seq<Run>): seq<DrawnRun>
  {
    seq(|runs|, k requires 0 <= k < |runs| => DrawnRun(y, selected, runs[k]))
  }

  /** The runs drawn for one stored row: none for a row without indices. */
  function RowRuns(y: nat, row: Row): seq<DrawnRun>
    requires RowValid(row)
  {
    Tag(y, row.selected, Segments(RowValues(row)))
  }

  /** The runs drawn for the rows whose `y` is in `ys`, in ascending `y`
      (the iteration order of the rows map). */
  ghost function DrawnFrom(rows: map<nat, Row>, ys: set<nat>): seq<DrawnRun>
    requires ys <= rows.Keys
    requires forall y :: y in rows ==> RowValid(rows[y])
    decreases ys
  {
    if ys == {} then []
    else
      var y := Collections.Min(ys) as nat;
      RowRuns(y, rows[y]) + DrawnFrom(rows, ys - {y})
  }

  /** The runs `draw` renders for the stored row at `y`. */
  method DrawRow(y: nat, row: Row) returns (drawn: seq<DrawnRun>)
    requires RowValid(row)
    ensures drawn == RowRuns(y, row)
  {
    if row.indices != [] {
      var runs := SegmentRow(RowValues(row));
      drawn := Tag(y, row.selected, runs);
    } else {
      assert RowValues(row) == [];
      drawn := [];
    }
  }

  class ColumnAnnotationsPlot {
    var rows: map<nat, Row>

    ghost predicate Valid()
      reads this
    {
      forall y :: y in rows ==> RowValid(rows[y])
    }

    constructor ()
      ensures Valid() && rows == map[]
    {
      rows := map[];
    }

    /** `setData`: `emplace` only inserts, so an existing row for `y` is kept. */
    method SetData(y: nat, indices: seq<nat>, selected: bool, annotation: seq<string>)
      requires Valid()
      requires RowValid(Row(indices, selected, annotation))
      modifies this
      ensures Valid()
      ensures y in old(rows) ==> rows == old(rows)
      ensures y !in old(rows) ==> rows == old(rows)[y := Row(indices, selected, annotation)]
    {
      if y !in rows {
        rows := rows[y := Row(indices, selected, annotation)];
      }
    }

    /** `draw`: every row in ascending `y`, rows without indices skipped, each
        split into its maximal runs. */
    method Draw() returns (out: seq<DrawnRun>)
      requires Valid()
      ensures out == DrawnFrom(rows, rows.Keys)
    {
      out := [];
      var all := rows;
      var remaining := all.Keys;
      while remaining != {}
        invariant remaining <= all.Keys
        invariant DrawnFrom(all, all.Keys) == out + DrawnFrom(all, remaining)
        decreases remaining
      {
        var y := Collections.Min(remaining) as nat;
        var drawn := DrawRow(y, all[y]);
        out := out + drawn;
        remaining := remaining - {y};
      }
    }
  }
}
