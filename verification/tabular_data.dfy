/**
 * The cell store that file parsers fill while loading a table: one flat,
 * row-major buffer of strings that grows as cells arrive, possibly out of
 * order, and can be read back transposed.
 */
module TabularData {

  function Max(a: nat, b: nat): nat { if a < b then b else a }

  // ---------------------------------------------------------------------
  // QString::trimmed

  /** The characters QChar::isSpace accepts: tab to carriage return, space,
    * NEL, no-break space and the Unicode space and line/paragraph separators. */
  predicate IsSpace(ch: char)
  {
    ('\t' <= ch <= '\r') || ch == ' ' || ch == '\U{85}' || ch == '\U{A0}' ||
    ch == '\U{1680}' || ('\U{2000}' <= ch <= '\U{200A}') || ch == '\U{2028}' ||
    ch == '\U{2029}' || ch == '\U{202F}' || ch == '\U{205F}' || ch == '\U{3000}'
  }

  /** `s` without its leading white space. */
  function TrimFront(s: string): (t: string)
    ensures |t| <= |s| && t == s[|s| - |t|..]
    ensures t == [] || !IsSpace(t[0])
    ensures forall i :: 0 <= i < |s| - |t| ==> IsSpace(s[i])
  {
    if s != [] && IsSpace(s[0]) then TrimFront(s[1..]) else s
  }

  /** `s` without its trailing white space. */
  function TrimBack(s: string): (t: string)
    ensures |t| <= |s| && t == s[..|t|]
    ensures t == [] || !IsSpace(t[|t| - 1])
    ensures forall i :: |t| <= i < |s| ==> IsSpace(s[i])
  {
    if s != [] && IsSpace(s[|s| - 1]) then TrimBack(s[..|s| - 1]) else s
  }

  /** QString::trimmed: white space removed from both ends. */
  function Trimmed(s: string): (t: string)
    ensures t == [] || (!IsSpace(t[0]) && !IsSpace(t[|t| - 1]))
    ensures |t| <= |s|
  {
    TrimBack(TrimFront(s))
  }

  /** What trimming removes is white space, and what it keeps is one slice of `s`. */
  lemma TrimmedIsSlice(s: string)
    ensures var a := |s| - |TrimFront(s)|;
      a + |Trimmed(s)| <= |s| && Trimmed(s) == s[a..a + |Trimmed(s)|] &&
      (forall i :: 0 <= i < a ==> IsSpace(s[i])) &&
      (forall i :: a + |Trimmed(s)| <= i < |s| ==> IsSpace(s[i]))
  {
    var f := TrimFront(s);
    var a := |s| - |f|;
    var t := TrimBack(f);
    assert f == s[a..];
    assert t == f[..|t|];
    forall i | a + |t| <= i < |s| ensures IsSpace(s[i]) {
      assert s[i] == f[i - a];
    }
  }

  /** A string with no white space at either end is left as it is. */
  lemma {:induction false} TrimmedKeepsClean(s: string)
    requires s == [] || (!IsSpace(s[0]) && !IsSpace(s[|s| - 1]))
    ensures Trimmed(s) == s
  {
    assert TrimFront(s) == s;
    assert TrimBack(s) == s;
  }

  /** Trimming twice is trimming once. */
  lemma TrimmedIdempotent(s: string)
    ensures Trimmed(Trimmed(s)) == Trimmed(s)
  {
    TrimmedKeepsClean(Trimmed(s));
  }

  // ---------------------------------------------------------------------
  // Buffer geometry

  /** Position of the first cell of row `r` when rows hold `w` cells. */
  function RowStart(r: nat, w: nat): nat
  {
    if r == 0 then 0 else RowStart(r - 1, w) + w
  }

  /** Position of cell (c, r) in a row-major buffer whose rows hold `w` cells. */
  function Cell(c: nat, r: nat, w: nat): nat { c + RowStart(r, w) }

  /** Row `r` starts after `r` whole rows. */
  lemma {:induction false} RowStartIsProduct(r: nat, w: nat)
    ensures RowStart(r, w) == r * w
  {
    if r > 0 {
      RowStartIsProduct(r - 1, w);
    }
  }

  /** `r` rows of `w` cells hold as many cells as `w` rows of `r` cells. */
  lemma RowStartSwap(r: nat, w: nat)
    ensures RowStart(r, w) == RowStart(w, r)
  {
    RowStartIsProduct(r, w);
    RowStartIsProduct(w, r);
  }

  /** Later rows start later. */
  lemma {:induction false} RowStartMono(a: nat, b: nat, w: nat)
    requires a <= b
    ensures RowStart(a, w) <= RowStart(b, w)
    decreases b
  {
    if a < b {
      RowStartMono(a, b - 1, w);
    }
  }

  /** In a wider layout a row starts no earlier. */
  lemma {:induction false} RowStartWider(r: nat, w: nat, w2: nat)
    requires w <= w2
    ensures RowStart(r, w) <= RowStart(r, w2)
  {
    if r > 0 {
      RowStartWider(r - 1, w, w2);
    }
  }

  /** The number of cells of a `w` by `h` grid. */
  function Area(w: nat, h: nat): (n: nat)
    ensures n == RowStart(h, w)
  {
    RowStartIsProduct(h, w);
    w * h
  }

  /** A cell inside a `w` by `h` grid lies inside its buffer. */
  lemma CellInBounds(c: nat, r: nat, w: nat, h: nat)
    requires c < w && r < h
    ensures Cell(c, r, w) < RowStart(h, w)
  {
    RowStartMono(r + 1, h, w);
  }

  /** A cell below the first `h` rows lies past their part of the buffer. */
  lemma CellBelowRows(c: nat, r: nat, w: nat, h: nat)
    requires h <= r
    ensures RowStart(h, w) <= Cell(c, r, w)
  {
    RowStartMono(h, r, w);
  }

  /** Distinct cells of one grid occupy distinct positions. */
  lemma CellInjective(c1: nat, r1: nat, c2: nat, r2: nat, w: nat)
    requires c1 < w && c2 < w && Cell(c1, r1, w) == Cell(c2, r2, w)
    ensures c1 == c2 && r1 == r2
  {
    if r1 < r2 {
      CellInBounds(c1, r1, w, r1 + 1);
      CellBelowRows(c2, r2, w, r1 + 1);
      assert false;
    } else if r2 < r1 {
      CellInBounds(c2, r2, w, r2 + 1);
      CellBelowRows(c1, r1, w, r2 + 1);
      assert false;
    }
  }

  /** A grid that grows in both directions needs at least as large a buffer. */
  lemma GridGrows(w: nat, h: nat, w2: nat, h2: nat)
    requires w <= w2 && h <= h2
    ensures RowStart(h, w) <= RowStart(h2, w2)
  {
    RowStartMono(h, h2, w);
    RowStartWider(h2, w, w2);
  }

  // ---------------------------------------------------------------------
  // Reservation policy

  /** The capacity reserved when a cell lands past the current capacity: once
    * the input is at least 10% read, the final size extrapolated from the
    * progress percentage with a 2% margin; before that, double the need. */
  function ReserveSize(newSize: nat, progressHint: int): (r: nat)
    ensures newSize <= r
    ensures progressHint < 10 ==> r == 2 * newSize
    ensures 10 <= progressHint ==> r * 10 <= 102 * newSize
    ensures 102 <= progressHint ==> r == newSize
  {
    if progressHint >= 10 then
      var estimate := (102 * newSize) / progressHint;
      EstimateBounds(newSize, progressHint);
      Max(newSize, estimate)
    else
      2 * newSize
  }

  /** Multiplying by the same number keeps the order: a <= b gives a * w <= b * w. */
  lemma MulLe(a: nat, b: nat, w: nat)
    requires a <= b
    ensures a * w <= b * w
  {
  }

  lemma EstimateBounds(n: nat, hint: int)
    requires 10 <= hint
    ensures ((102 * n) / hint) * 10 <= 102 * n
    ensures 102 <= hint ==> (102 * n) / hint <= n
  {
    var q := (102 * n) / hint;
    assert q * hint <= 102 * n;
    MulLe(10, hint, q);
    if 102 <= hint {
      MulLe(102, hint, q);
    }
  }

  /**
   * The capacity after the buffer grows to `newSize` cells: moving rows
   * apart first resizes the buffer, which reserves exactly what it needs;
   * a size still past the capacity then reserves by ReserveSize.
   */
  function NewCapacity(capacity: nat, newSize: nat, shifted: bool, progressHint: int): (r: nat)
    ensures capacity <= r && newSize <= r
    ensures newSize <= capacity ==> r == capacity
    ensures !shifted && capacity < newSize ==> r == ReserveSize(newSize, progressHint)
  {
    var cap := if shifted then Max(capacity, newSize) else capacity;
    if newSize > cap then ReserveSize(newSize, progressHint) else cap
  }

  // ---------------------------------------------------------------------
  // The table

  class Table {
    /** The cells, row-major with `columns` cells per row as stored. */
    var data: seq<string>
    var columns: nat
    var rows: nat
    /** Read back with rows and columns swapped. */
    var transposed: bool
    /** The space the buffer has reserved. */
    var capacity: nat

    ghost predicate Valid()
      reads this
    {
      |data| == RowStart(rows, columns) <= capacity
    }

    /** An empty table. */
    constructor ()
      ensures Valid()
      ensures data == [] && columns == 0 && rows == 0 && !transposed && capacity == 0
    {
      data := [];
      columns := 0;
      rows := 0;
      transposed := false;
      capacity := 0;
    }

    /** Move construction: takes over `other`'s cells and leaves it empty. */
    constructor Moved(other: Table)
      requires other.Valid()
      modifies other
      ensures Valid() && other.Valid()
      ensures data == old(other.data) && columns == old(other.columns) && rows == old(other.rows)
      ensures transposed == old(other.transposed) && capacity == old(other.capacity)
      ensures other.data == [] && other.columns == 0 && other.rows == 0 && !other.transposed
    {
      data := other.data;
      columns := other.columns;
      rows := other.rows;
      transposed := other.transposed;
      capacity := other.capacity;
      new;
      other.data := [];
      other.capacity := 0;
      other.Reset();
    }

    /** Move assignment: as move construction, and a no-op onto itself. */
    method MoveAssign(other: Table)
      requires Valid() && other.Valid()
      modifies this, other
      ensures Valid() && other.Valid()
      ensures other == this ==> unchanged(this)
      ensures other != this ==>
        data == old(other.data) && columns == old(other.columns) && rows == old(other.rows) &&
        transposed == old(other.transposed) && capacity == old(other.capacity) &&
        other.data == [] && other.columns == 0 && other.rows == 0 && !other.transposed
    {
      if other != this {
        data := other.data;
        columns := other.columns;
        rows := other.rows;
        transposed := other.transposed;
        capacity := other.capacity;
        other.data := [];
        other.capacity := 0;
        other.Reset();
      }
    }

    /** Forget every cell and the orientation; the reservation stays. */
    method Reset()
      modifies this
      ensures Valid()
      ensures data == [] && columns == 0 && rows == 0 && !transposed
      ensures capacity == old(capacity)
    {
      data := [];
      columns := 0;
      rows := 0;
      transposed := false;
    }

    /** Reserve space for a `c` by `r` grid ahead of loading it. */
    method Reserve(c: nat, r: nat)
      requires Valid()
      modifies this`capacity
      ensures Valid()
      ensures capacity == Max(old(capacity), c * r)
    {
      capacity := Max(capacity, c * r);
    }

    /** Give back reserved space that no cell uses. */
    method ShrinkToFit()
      requires Valid()
      modifies this`capacity
      ensures Valid() && capacity == |data|
    {
      capacity := |data|;
    }

    /** Read the cells with rows and columns swapped, or not. */
    method SetTransposed(t: bool)
      requires Valid()
      modifies this`transposed
      ensures Valid() && transposed == t
      ensures t != old(transposed) ==> NumColumns() == old(NumRows()) && NumRows() == old(NumColumns())
      ensures t != old(transposed) ==>
        forall c: nat, r: nat :: c < NumColumns() && r < NumRows() ==> ValueAt(c, r) == old(ValueAt(r, c))
    {
      transposed := t;
    }

    /** The column count of the table as read: its rows as read, `n` cells each, fill exactly the stored cells. */
    function NumColumns(): (n: nat)
      reads this
      ensures Valid() ==> RowStart(if transposed then columns else rows, n) == |data|
    {
      RowStartSwap(rows, columns);
      if !transposed then columns else rows
    }

    /** The row count of the table as read: `n` rows, as wide as the table as read, fill exactly the stored cells. */
    function NumRows(): (n: nat)
      reads this
      ensures Valid() ==> RowStart(n, if transposed then rows else columns) == |data|
    {
      RowStartSwap(rows, columns);
      if !transposed then rows else columns
    }

    /** The table seen through its orientation holds exactly the stored cells. */
    lemma ShapeMatchesBuffer()
      requires Valid()
      ensures NumColumns() * NumRows() == |data|
    {
      RowStartIsProduct(rows, columns);
    }

    /** True when there are no cells, that is when there is no column or no row. */
    function IsEmpty(): (r: bool)
      requires Valid()
      reads this
      ensures r <==> NumColumns() == 0 || NumRows() == 0
    {
      RowStartIsProduct(rows, columns);
      data == []
    }

    /** Where cell (c, r) of the table as read lives in the buffer. */
    function Index(c: nat, r: nat): (i: nat)
      requires Valid() && c < NumColumns() && r < NumRows()
      reads this
      ensures i < |data|
    {
      if !transposed then
        CellInBounds(c, r, columns, rows);
        Cell(c, r, columns)
      else
        CellInBounds(r, c, columns, rows);
        Cell(r, c, columns)
    }

    /** Distinct cells of the table as read are stored apart. */
    lemma IndexInjective(c1: nat, r1: nat, c2: nat, r2: nat)
      requires Valid()
      requires c1 < NumColumns() && r1 < NumRows() && c2 < NumColumns() && r2 < NumRows()
      requires Index(c1, r1) == Index(c2, r2)
      ensures c1 == c2 && r1 == r2
    {
      if !transposed {
        CellInjective(c1, r1, c2, r2, columns);
      } else {
        CellInjective(r1, c1, r2, c2, columns);
      }
    }

    /** The cell in column `c` and row `r` of the table as read: the buffer holds the stored rows one after another. */
    function ValueAt(c: nat, r: nat): (v: string)
      requires Valid() && c < NumColumns() && r < NumRows()
      reads this
      ensures !transposed ==> c < columns && RowStart(r, columns) + c < |data| && v == data[RowStart(r, columns) + c]
      ensures transposed ==> r < columns && RowStart(c, columns) + r < |data| && v == data[RowStart(c, columns) + r]
    {
      data[Index(c, r)]
    }

    /**
     * Store `value`, trimmed, at (column, row), growing the grid as needed.
     * Cells already stored keep their place in the grid; cells the growth
     * creates are empty. `progressHint` is the percentage of the input read
     * so far and drives how much space is reserved.
     */
    method SetValueAt(column: nat, row: nat, value: string, progressHint: int)
      requires Valid()
      requires transposed ==> column < Max(rows, row + 1) && row < Max(columns, column + 1)
      modifies this
      ensures Valid()
      ensures columns == Max(old(columns), column + 1) && rows == Max(old(rows), row + 1)
      ensures transposed == old(transposed)
      ensures column < NumColumns() && row < NumRows()
      ensures ValueAt(column, row) == Trimmed(value)
      ensures Kept(old(data), data, old(columns), old(rows), columns, rows, Index(column, row))
      ensures capacity == NewCapacity(old(capacity), |data|, old(rows) > 0 && rows > 1 && columns > old(columns), progressHint)
    {
      ghost var d0, w, h := data, columns, rows;
      Grow(column, row, progressHint);
      ghost var d1 := data;
      var v := Trimmed(value);
      Store(column, row, v);
      RegrownWrite(d0, d1, w, h, columns, rows, Index(column, row), v);
    }

    /** Overwrite the cell at (column, row) of the table as read. */
    method Store(column: nat, row: nat, v: string)
      requires Valid() && column < NumColumns() && row < NumRows()
      modifies this`data
      ensures Valid() && column < NumColumns() && row < NumRows()
      ensures data == old(data)[Index(column, row) := v]
      ensures ValueAt(column, row) == v
    {
      data := data[Index(column, row) := v];
    }

    /** The growth and reservation part of SetValueAt: the grid takes in (column, row). */
    method Grow(column: nat, row: nat, progressHint: int)
      requires Valid()
      modifies this`data, this`columns, this`rows, this`capacity
      ensures Valid()
      ensures columns == Max(old(columns), column + 1) && rows == Max(old(rows), row + 1)
      ensures Regrown(old(data), data, old(columns), old(rows), columns, rows)
      ensures capacity == NewCapacity(old(capacity), |data|, old(rows) > 0 && rows > 1 && columns > old(columns), progressHint)
    {
      var newColumns := if column >= columns then column + 1 else columns;
      var newRows := if row >= rows then row + 1 else rows;
      var newSize := Area(newColumns, newRows);
      var shifted := rows > 0 && newRows > 1 && newColumns > columns;
      var cap := NewCapacity(capacity, newSize, shifted, progressHint);
      Regrow(newColumns, newRows, shifted);
      capacity := cap;
    }

    /** The growth part of SetValueAt: when rows widen and there is more than
      * one, move the existing rows apart first; then take the new shape and
      * pad the buffer with empty strings to its new size. */
    method Regrow(newColumns: nat, newRows: nat, shift: bool)
      requires |data| == RowStart(rows, columns)
      requires columns <= newColumns && rows <= newRows && 0 < newRows
      requires shift == (rows > 0 && newRows > 1 && newColumns > columns)
      modifies this`data, this`columns, this`rows
      ensures columns == newColumns && rows == newRows
      ensures Regrown(old(data), data, old(columns), old(rows), newColumns, newRows)
    {
      var newSize := RowStart(newRows, newColumns);
      GridGrows(columns, rows, newColumns, newRows);
      ghost var d0 := data;
      ghost var w := columns;
      ghost var h := rows;
      if shift {
        data := data + seq(newSize - |data|, _ => "");
        assert forall i :: |d0| <= i < |data| ==> data[i] == "";
        forall p: nat, k: nat | p < h && k < w
          ensures Cell(k, p, w) < |d0| && data[Cell(k, p, w)] == d0[Cell(k, p, w)]
        {
          CellInBounds(k, p, w, h);
        }
        RowStartMono(rows, newRows, newColumns);
        ShiftRows(columns, newColumns, rows);
      }
      ghost var moved := data;
      columns := newColumns;
      rows := newRows;
      data := data + seq(newSize - |data|, _ => "");
      if shift {
        assert data == moved;
        GrownCellsShifted(d0, data, w, h, newColumns, newRows);
      } else {
        GrownCellsInPlace(d0, data, w, h, newColumns, newRows);
      }
    }

    /** After growing the buffer to `w2` cells per row, move each of the first
      * `h` rows of `w` cells to its new place, last row first, so that the
      * cells between rows and past them end up empty. */
    method ShiftRows(w: nat, w2: nat, h: nat)
      requires w < w2 && 0 < h && RowStart(h, w2) <= |data|
      requires forall i :: RowStart(h, w) <= i < |data| ==> data[i] == ""
      modifies this`data
      ensures |data| == |old(data)|
      ensures forall p: nat, k: nat :: p < h && k < w ==>
        Cell(k, p, w2) < |data| && Cell(k, p, w) < |data| && data[Cell(k, p, w2)] == old(data)[Cell(k, p, w)]
      ensures forall p: nat, k: nat :: p < h && w <= k < w2 ==> Cell(k, p, w2) < |data| && data[Cell(k, p, w2)] == ""
      ensures forall i :: RowStart(h, w2) <= i < |data| ==> data[i] == ""
    {
      ghost var d0 := data;
      ShiftingStart(d0, w, w2, h);
      var offset := h - 1;
      while offset > 0
        invariant Shifting(d0, data, offset, w, w2, h)
      {
        ShiftRow(d0, offset, w, w2, h);
        offset := offset - 1;
      }
      ShiftingDone(d0, data, w, w2, h);
    }

    /** One turn of the ShiftRows loop: row `o` moves from its place for width `w` to its place for width `w2`. */
    method ShiftRow(ghost d0: seq<string>, o: nat, w: nat, w2: nat, h: nat)
      requires Shifting(d0, data, o, w, w2, h) && 0 < o
      modifies this`data
      ensures Shifting(d0, data, o - 1, w, w2, h)
    {
      ghost var pre := data;
      ShiftingMove(d0, pre, o, w, w2, h);
      var from := RowStart(o, w);
      var to := RowStart(o, w2);
      MoveBackward(from, from + w, to + w);
      ShiftingStep(d0, pre, data, o, w, w2, h);
    }

    /** std::move_backward on QStrings, whose move assignment swaps: the range
      * [first, last) moves to end at dLast, and the empty strings it moves
      * over come back in its place. */
    method MoveBackward(first: nat, last: nat, dLast: nat)
      requires first <= last <= dLast <= |data|
      requires forall i :: last <= i < dLast ==> data[i] == ""
      modifies this`data
      ensures MovedBack(old(data), data, first, last, dLast)
    {
      var src := last;
      var dst := dLast;
      while src > first
        invariant first <= src <= last && dst == src + (dLast - last)
        invariant |data| == |old(data)|
        invariant forall i :: 0 <= i < src || dLast <= i < |data| ==> data[i] == old(data)[i]
        invariant forall i :: src <= i < dLast && i - (dLast - last) < src ==> data[i] == ""
        invariant forall i :: src <= i < dLast && src <= i - (dLast - last) ==> data[i] == old(data)[i - (dLast - last)]
      {
        src := src - 1;
        dst := dst - 1;
        data := data[dst := data[src]][src := data[dst]];
      }
    }
  }

  /**
   * What std::move_backward leaves: `after` is `before` with the range
   * [first, last) moved to end at dLast and empty strings where it was.
   */
  ghost predicate MovedBack(before: seq<string>, after: seq<string>, first: nat, last: nat, dLast: nat)
    requires first <= last <= dLast
  {
    |after| == |before| &&
    (forall i :: 0 <= i < |after| && (i < first || dLast <= i) ==> after[i] == before[i]) &&
    (forall i :: first <= i < first + (dLast - last) && i < dLast && i < |after| ==> after[i] == "") &&
    (forall i :: first + (dLast - last) <= i < dLast && i < |after| ==> after[i] == before[i - (dLast - last)])
  }

  /**
   * The loop of ShiftRows before it moves row `offset`: the rows after it
   * sit at their places for width `w2` with empty cells after them, the
   * buffer before row `offset + 1` of width `w` is untouched, and the rest
   * up to row `offset + 1` of width `w2` is empty.
   */
  ghost predicate Shifting(d0: seq<string>, d: seq<string>, offset: nat, w: nat, w2: nat, h: nat)
  {
    w < w2 && offset < h && |d| == |d0| &&
    RowStart(offset + 1, w) <= RowStart(offset + 1, w2) <= RowStart(h, w2) <= |d| &&
    (forall i :: 0 <= i < RowStart(offset + 1, w) ==> d[i] == d0[i]) &&
    (forall i :: RowStart(offset + 1, w) <= i < RowStart(offset + 1, w2) ==> d[i] == "") &&
    (forall p: nat, k: nat :: offset < p < h && k < w ==>
      Cell(k, p, w2) < |d| && Cell(k, p, w) < |d| && d[Cell(k, p, w2)] == d0[Cell(k, p, w)]) &&
    (forall p: nat, k: nat :: offset < p < h && w <= k < w2 ==> Cell(k, p, w2) < |d| && d[Cell(k, p, w2)] == "") &&
    (forall i :: RowStart(h, w2) <= i < |d| ==> d[i] == "")
  }

  lemma ShiftingStart(d0: seq<string>, w: nat, w2: nat, h: nat)
    requires w < w2 && 0 < h && RowStart(h, w2) <= |d0|
    requires forall i :: RowStart(h, w) <= i < |d0| ==> d0[i] == ""
    ensures Shifting(d0, d0, h - 1, w, w2, h)
  {
    RowStartWider(h, w, w2);
  }

  /** Moving row `o` is a legal std::move_backward: the places it moves over are empty. */
  lemma ShiftingMove(d0: seq<string>, d: seq<string>, o: nat, w: nat, w2: nat, h: nat)
    requires Shifting(d0, d, o, w, w2, h) && 0 < o
    ensures RowStart(o, w) + w <= RowStart(o, w2) + w <= |d|
    ensures forall i :: RowStart(o, w) + w <= i < RowStart(o, w2) + w ==> d[i] == ""
  {
    RowStartWider(o, w, w2);
  }

  /** Row `o` moved, the loop's picture holds one row earlier. */
  lemma ShiftingStep(d0: seq<string>, pre: seq<string>, post: seq<string>, o: nat, w: nat, w2: nat, h: nat)
    requires Shifting(d0, pre, o, w, w2, h) && 0 < o
    requires RowStart(o, w) + w <= RowStart(o, w2) + w
    requires MovedBack(pre, post, RowStart(o, w), RowStart(o, w) + w, RowStart(o, w2) + w)
    ensures Shifting(d0, post, o - 1, w, w2, h)
  {
    RowStartWider(o, w, w2);
    assert RowStart(o + 1, w) == RowStart(o, w) + w && RowStart(o + 1, w2) == RowStart(o, w2) + w2;
    ShiftedRow(d0, pre, post, o, w, w2);
    ShiftedBefore(d0, pre, post, o, w, w2);
    ShiftedLater(d0, pre, post, o, w, w2, h);
  }

  /** Row `o` lands at its place for width `w2`, with empty cells after it. */
  lemma ShiftedRow(d0: seq<string>, pre: seq<string>, post: seq<string>, o: nat, w: nat, w2: nat)
    requires w < w2 && |pre| == |d0| && RowStart(o, w) <= RowStart(o, w2) && RowStart(o, w2) + w2 <= |pre|
    requires forall i :: 0 <= i < RowStart(o, w) + w ==> pre[i] == d0[i]
    requires forall i :: RowStart(o, w) + w <= i < RowStart(o, w2) + w2 ==> pre[i] == ""
    requires MovedBack(pre, post, RowStart(o, w), RowStart(o, w) + w, RowStart(o, w2) + w)
    ensures forall k: nat :: k < w ==>
      Cell(k, o, w2) < |post| && Cell(k, o, w) < |post| && post[Cell(k, o, w2)] == d0[Cell(k, o, w)]
    ensures forall k: nat :: w <= k < w2 ==> Cell(k, o, w2) < |post| && post[Cell(k, o, w2)] == ""
  {
    var first, to := RowStart(o, w), RowStart(o, w2);
    forall k: nat | k < w
      ensures Cell(k, o, w2) < |post| && Cell(k, o, w) < |post| && post[Cell(k, o, w2)] == d0[Cell(k, o, w)]
    {
      assert post[to + k] == pre[first + k];
    }
  }

  /** Moving row `o` leaves the buffer before it untouched and empties the gap up to its new place. */
  lemma ShiftedBefore(d0: seq<string>, pre: seq<string>, post: seq<string>, o: nat, w: nat, w2: nat)
    requires w < w2 && |pre| == |d0| && RowStart(o, w) <= RowStart(o, w2) && RowStart(o, w2) + w2 <= |pre|
    requires forall i :: 0 <= i < RowStart(o, w) + w ==> pre[i] == d0[i]
    requires MovedBack(pre, post, RowStart(o, w), RowStart(o, w) + w, RowStart(o, w2) + w)
    ensures forall i :: 0 <= i < RowStart(o, w) ==> post[i] == d0[i]
    ensures forall i :: RowStart(o, w) <= i < RowStart(o, w2) ==> post[i] == ""
  {
  }

  /** The rows after `o` and the tail are not touched by moving row `o`. */
  lemma ShiftedLater(d0: seq<string>, pre: seq<string>, post: seq<string>, o: nat, w: nat, w2: nat, h: nat)
    requires Shifting(d0, pre, o, w, w2, h) && 0 < o
    requires RowStart(o, w) <= RowStart(o, w2)
    requires MovedBack(pre, post, RowStart(o, w), RowStart(o, w) + w, RowStart(o, w2) + w)
    ensures forall p: nat, k: nat :: o < p < h && k < w2 ==> Cell(k, p, w2) < |post| && post[Cell(k, p, w2)] == pre[Cell(k, p, w2)]
    ensures forall i :: RowStart(h, w2) <= i < |post| ==> post[i] == ""
  {
    assert RowStart(o + 1, w2) == RowStart(o, w2) + w2;
    forall p: nat, k: nat | o < p < h && k < w2
      ensures Cell(k, p, w2) < |post| && post[Cell(k, p, w2)] == pre[Cell(k, p, w2)]
    {
      CellBelowRows(k, p, w2, o + 1);
      CellInBounds(k, p, w2, h);
    }
  }

  /** The loop of ShiftRows done: every row sits at its place for width `w2`. */
  lemma ShiftingDone(d0: seq<string>, d: seq<string>, w: nat, w2: nat, h: nat)
    requires Shifting(d0, d, 0, w, w2, h)
    ensures |d| == |d0|
    ensures forall p: nat, k: nat :: p < h && k < w ==>
      Cell(k, p, w2) < |d| && Cell(k, p, w) < |d| && d[Cell(k, p, w2)] == d0[Cell(k, p, w)]
    ensures forall p: nat, k: nat :: p < h && w <= k < w2 ==> Cell(k, p, w2) < |d| && d[Cell(k, p, w2)] == ""
  {
    assert RowStart(1, w) == w && RowStart(1, w2) == w2;
    assert forall k: nat :: Cell(k, 0, w2) == k == Cell(k, 0, w);
  }

  /** `d1` is the buffer of a `w2` by `h2` grid that keeps the cells of the
    * `w` by `h` grid stored in `d0` at their (column, row) and is empty elsewhere. */
  ghost predicate Regrown(d0: seq<string>, d1: seq<string>, w: nat, h: nat, w2: nat, h2: nat)
  {
    |d1| == RowStart(h2, w2) &&
    (forall c: nat, r: nat :: c < w && r < h ==>
      Cell(c, r, w2) < |d1| && Cell(c, r, w) < |d0| && d1[Cell(c, r, w2)] == d0[Cell(c, r, w)]) &&
    (forall c: nat, r: nat :: c < w2 && r < h2 && (w <= c || h <= r) ==>
      Cell(c, r, w2) < |d1| && d1[Cell(c, r, w2)] == "")
  }

  /** Cell bookkeeping of SetValueAt when the rows were moved apart. */
  lemma GrownCellsShifted(d0: seq<string>, d1: seq<string>, w: nat, h: nat, w2: nat, h2: nat)
    requires |d0| == RowStart(h, w) && |d1| == RowStart(h2, w2) && w <= w2 && h <= h2
    requires forall p: nat, k: nat :: p < h && k < w ==>
      Cell(k, p, w2) < |d1| && Cell(k, p, w) < |d0| && d1[Cell(k, p, w2)] == d0[Cell(k, p, w)]
    requires forall p: nat, k: nat :: p < h && w <= k < w2 ==> Cell(k, p, w2) < |d1| && d1[Cell(k, p, w2)] == ""
    requires forall i :: RowStart(h, w2) <= i < |d1| ==> d1[i] == ""
    ensures Regrown(d0, d1, w, h, w2, h2)
  {
    forall c: nat, r: nat | c < w && r < h
      ensures Cell(c, r, w2) < |d1| && Cell(c, r, w) < |d0|
    {
      CellInBounds(c, r, w2, h2);
      CellInBounds(c, r, w, h);
    }
    forall c: nat, r: nat | c < w2 && r < h2 && (w <= c || h <= r)
      ensures Cell(c, r, w2) < |d1| && d1[Cell(c, r, w2)] == ""
    {
      CellInBounds(c, r, w2, h2);
      if h <= r {
        CellBelowRows(c, r, w2, h);
      }
    }
  }

  /** Cell bookkeeping of SetValueAt when the buffer only grew at its end: the
    * row width is unchanged, or there was no row, or there is a single row. */
  lemma GrownCellsInPlace(d0: seq<string>, d1: seq<string>, w: nat, h: nat, w2: nat, h2: nat)
    requires |d0| == RowStart(h, w) <= |d1| == RowStart(h2, w2) && w <= w2 && h <= h2
    requires d1 == d0 + seq(|d1| - |d0|, _ => "")
    requires w == w2 || h == 0 || h2 <= 1
    ensures Regrown(d0, d1, w, h, w2, h2)
  {
    forall c: nat, r: nat | c < w && r < h
      ensures Cell(c, r, w2) < |d1| && Cell(c, r, w) < |d0| && d1[Cell(c, r, w2)] == d0[Cell(c, r, w)]
    {
      CellInBounds(c, r, w2, h2);
      CellInBounds(c, r, w, h);
      if w != w2 {
        assert r == 0;
      }
    }
    forall c: nat, r: nat | c < w2 && r < h2 && (w <= c || h <= r)
      ensures Cell(c, r, w2) < |d1| && d1[Cell(c, r, w2)] == ""
    {
      CellInBounds(c, r, w2, h2);
      if h <= r {
        CellBelowRows(c, r, w, h);
        if w != w2 && h != 0 {
          assert false;
        }
      } else if h != 0 {
        if w != w2 {
          assert r == 0;
        }
      }
    }
  }

  /**
   * Every cell of the `w2` by `h2` buffer `d` but the one at position `i`
   * holds what Regrown says: the cell of the `w` by `h` grid in `d0` at the
   * same (column, row), or an empty string where that grid had none.
   */
  ghost predicate Kept(d0: seq<string>, d: seq<string>, w: nat, h: nat, w2: nat, h2: nat, i: nat)
  {
    |d| == RowStart(h2, w2) &&
    (forall c: nat, r: nat :: c < w && r < h && Cell(c, r, w2) != i ==>
      Cell(c, r, w2) < |d| && Cell(c, r, w) < |d0| && d[Cell(c, r, w2)] == d0[Cell(c, r, w)]) &&
    (forall c: nat, r: nat :: c < w2 && r < h2 && (w <= c || h <= r) && Cell(c, r, w2) != i ==>
      Cell(c, r, w2) < |d| && d[Cell(c, r, w2)] == "")
  }

  /** Writing one cell of a regrown buffer leaves every other cell as Regrown describes it. */
  lemma RegrownWrite(d0: seq<string>, d1: seq<string>, w: nat, h: nat, w2: nat, h2: nat, i: nat, v: string)
    requires Regrown(d0, d1, w, h, w2, h2) && i < |d1|
    ensures Kept(d0, d1[i := v], w, h, w2, h2, i)
  {
  }
}
