/**
 * The column and sort bookkeeping of the attribute table's proxy model: which
 * source columns are hidden, the order the user arranged them in, the maps
 * between source and proxy columns, the most-recently-used list of sort keys
 * and the multi-key row comparison, and the sub-selected rows.
 *
 * Cell values and the locale-aware collator are abstracted to integer keys
 * compared by `<`; an invalid value (a cell outside the model) sorts after
 * every valid one, as Qt's variant comparison orders them.
 */
module TableProxyModel {
  import opened Wrappers
  import opened Collections

  datatype SortOrder = Ascending | Descending

  /** One entry of the sort-key list: a SOURCE column and its direction. */
  datatype SortKey = SortKey(column: int, order: SortOrder)

  /** A cell position in the model. */
  datatype ModelIndex = ModelIndex(row: int, column: int)

  // ---------------------------------------------------------------------
  // Column lists

  predicate StrictlyIncreasing(s: seq<int>)
  {
    forall i, j :: 0 <= i < j < |s| ==> s[i] < s[j]
  }

  predicate Sorted(s: seq<int>)
  {
    forall i, j :: 0 <= i < j < |s| ==> s[i] <= s[j]
  }

  /** u::setDifference: the elements of `s` that are not in `t`, in their order in `s`. */
  function SetDifference(s: seq<int>, t: seq<int>): (r: seq<int>)
    ensures |r| <= |s|
    ensures forall x :: x in r <==> x in s && x !in t
  {
    if s == [] then []
    else if s[0] in t then SetDifference(s[1..], t)
    else [s[0]] + SetDifference(s[1..], t)
  }

  /** Nothing of `s` in `t`: the difference is `s` itself. */
  lemma {:induction false} SetDifferenceKeepsAll(s: seq<int>, t: seq<int>)
    ensures (forall x :: x in s ==> x !in t) ==> SetDifference(s, t) == s
  {
    if s != [] && forall x :: x in s ==> x !in t {
      assert forall x :: x in s[1..] ==> x in s;
      SetDifferenceKeepsAll(s[1..], t);
      assert s == [s[0]] + s[1..];
    }
  }

  /** Nothing hidden below `n`: every column shows; everything below `n` hidden: none does. */
  lemma VisibleExtremes(n: nat, hidden: seq<int>)
    ensures (forall c :: 0 <= c < n ==> c !in hidden) ==> Visible(n, hidden) == Range(n)
    ensures (forall c :: 0 <= c < n ==> c in hidden) ==> Visible(n, hidden) == []
  {
    VisibleColumns(n, hidden);
    if forall c :: 0 <= c < n ==> c !in hidden {
      forall x | x in Range(n) ensures x !in hidden {
        var i :| 0 <= i < n && Range(n)[i] == x;
      }
      SetDifferenceKeepsAll(Range(n), hidden);
    }
    if forall c :: 0 <= c < n ==> c in hidden {
      forall x | x in Range(n) ensures x in hidden {
        var i :| 0 <= i < n && Range(n)[i] == x;
      }
      SetDifferenceDropsAll(Range(n), hidden);
    }
  }

  /** Everything of `s` in `t`: the difference is empty. */
  lemma {:induction false} SetDifferenceDropsAll(s: seq<int>, t: seq<int>)
    ensures (forall x :: x in s ==> x in t) ==> SetDifference(s, t) == []
  {
    if s != [] && forall x :: x in s ==> x in t {
      assert forall x :: x in s[1..] ==> x in s;
      SetDifferenceDropsAll(s[1..], t);
    }
  }

  /** Extending the input at its end extends the difference by that element, if kept. */
  lemma {:induction false} SetDifferenceSnoc(s: seq<int>, x: int, t: seq<int>)
    ensures SetDifference(s + [x], t) == SetDifference(s, t) + (if x in t then [] else [x])
  {
    if s == [] {
      assert s + [x] == [x];
      assert [x][1..] == [];
    } else {
      assert (s + [x])[0] == s[0];
      assert (s + [x])[1..] == s[1..] + [x];
      SetDifferenceSnoc(s[1..], x, t);
    }
  }

  /** Each value occurs in the difference as often as in `s`, unless `t` holds it. */
  lemma {:induction false} SetDifferenceCounts(s: seq<int>, t: seq<int>)
    ensures forall x :: multiset(SetDifference(s, t))[x] == if x in t then 0 else multiset(s)[x]
  {
    if s != [] {
      SetDifferenceCounts(s[1..], t);
      assert s == [s[0]] + s[1..];
      assert multiset(s) == multiset([s[0]]) + multiset(s[1..]);
    }
  }

  /** Removing columns from an ascending list leaves it ascending. */
  lemma {:induction false} SetDifferenceIncreasing(s: seq<int>, t: seq<int>)
    requires StrictlyIncreasing(s)
    ensures StrictlyIncreasing(SetDifference(s, t))
  {
    if s != [] {
      SetDifferenceIncreasing(s[1..], t);
      var rest := SetDifference(s[1..], t);
      forall j | 0 <= j < |rest| ensures s[0] < rest[j] {
        assert rest[j] in rest;
        var k :| 0 <= k < |s[1..]| && s[1..][k] == rest[j];
      }
      if s[0] !in t {
        var r := [s[0]] + rest;
        forall a, b | 0 <= a < b < |r| ensures r[a] < r[b] {
          assert r[b] == rest[b - 1];
          if a > 0 {
            assert r[a] == rest[a - 1];
          }
        }
      }
    }
  }

  /** The columns the proxy shows, in source order: those in [0, n) that are not hidden. */
  function Visible(n: nat, hidden: seq<int>): seq<int>
  {
    SetDifference(Range(n), hidden)
  }

  /** The visible columns are ascending and are exactly the non-hidden columns below n. */
  lemma VisibleColumns(n: nat, hidden: seq<int>)
    ensures StrictlyIncreasing(Visible(n, hidden))
    ensures forall c :: c in Visible(n, hidden) <==> 0 <= c < n && c !in hidden
  {
    SetDifferenceIncreasing(Range(n), hidden);
    forall c | 0 <= c < n ensures c in Range(n) {
      assert Range(n)[c] == c;
    }
  }

  /** A column order that is a rearrangement of [0, n) keeps, once the hidden
    * columns are removed, exactly as many columns as the proxy shows, and the same ones. */
  lemma OrderedMatchesVisible(order: seq<int>, n: nat, hidden: seq<int>)
    requires multiset(order) == multiset(Range(n))
    ensures multiset(SetDifference(order, hidden)) == multiset(Visible(n, hidden))
    ensures |SetDifference(order, hidden)| == |Visible(n, hidden)|
  {
    SetDifferenceCounts(order, hidden);
    SetDifferenceCounts(Range(n), hidden);
    forall x ensures multiset(SetDifference(order, hidden))[x] == multiset(Visible(n, hidden))[x] {
    }
    assert multiset(SetDifference(order, hidden)) == multiset(Visible(n, hidden));
    assert |multiset(SetDifference(order, hidden))| == |multiset(Visible(n, hidden))|;
  }

  /** The first loop of the unordered mapping: every accepted source column, ascending. */
  method ProxyToSourceColumns(n: nat, hidden: seq<int>) returns (p: seq<int>)
    ensures p == Visible(n, hidden)
  {
    p := [];
    var i := 0;
    while i < n
      invariant 0 <= i <= n
      invariant p == SetDifference(Range(i), hidden)
    {
      assert Range(i + 1) == Range(i) + [i];
      SetDifferenceSnoc(Range(i), i, hidden);
      if i !in hidden {
        p := p + [i];
      }
      i := i + 1;
    }
  }

  /** The second loop of the unordered mapping: the inverse of the proxy-to-source list,
    * -1 for every source column the list does not reach. */
  method InvertColumns(n: nat, p: seq<int>) returns (inv: seq<int>)
    requires forall i :: 0 <= i < |p| ==> 0 <= p[i] < n
    requires StrictlyIncreasing(p)
    ensures |inv| == n
    ensures forall i :: 0 <= i < |p| ==> inv[p[i]] == i
    ensures forall s :: 0 <= s < n && s !in p ==> inv[s] == -1
  {
    inv := seq(n, _ => -1);
    var i := 0;
    while i < |p|
      invariant 0 <= i <= |p| && |inv| == n
      invariant forall k :: 0 <= k < i ==> inv[p[k]] == k
      invariant forall s :: 0 <= s < n && (forall k :: 0 <= k < i ==> p[k] != s) ==> inv[s] == -1
    {
      inv := inv[p[i] := i];
      i := i + 1;
    }
  }

  /** Insert `x` into the ascending list `s`. */
  function Insert(x: int, s: seq<int>): (r: seq<int>)
    requires Sorted(s)
    ensures Sorted(r) && multiset(r) == multiset(s) + multiset{x}
  {
    if s == [] || x <= s[0] then
      SortedCons(x, s);
      [x] + s
    else
      var rest := Insert(x, s[1..]);
      InsertBehindHead(x, s, rest);
      [s[0]] + rest
  }

  /** Putting the head of `s` back in front of `x` inserted into its tail gives `x` inserted into `s`. */
  lemma InsertBehindHead(x: int, s: seq<int>, rest: seq<int>)
    requires Sorted(s) && s != [] && s[0] < x
    requires Sorted(rest) && multiset(rest) == multiset(s[1..]) + multiset{x}
    ensures Sorted([s[0]] + rest) && multiset([s[0]] + rest) == multiset(s) + multiset{x}
  {
    assert s == [s[0]] + s[1..];
    forall y | y in rest ensures s[0] <= y {
      assert y in multiset(rest);
    }
    SortedCons(s[0], rest);
  }

  /** An element no larger than any of an ascending list can go in front of it. */
  lemma SortedCons(x: int, s: seq<int>)
    requires Sorted(s) && (s == [] || x <= s[0] || forall y :: y in s ==> x <= y)
    ensures Sorted([x] + s)
  {
    var r := [x] + s;
    forall a, b | 0 <= a < b < |r| ensures r[a] <= r[b] {
      assert r[b] == s[b - 1];
      if a > 0 {
        assert r[a] == s[a - 1];
      } else {
        assert s[b - 1] in s;
        assert s[0] <= s[b - 1] || b - 1 == 0;
      }
    }
  }

  /** std::sort on the hidden-column list: ascending, same columns. */
  function SortColumns(s: seq<int>): (r: seq<int>)
    ensures Sorted(r) && multiset(r) == multiset(s)
  {
    if s == [] then []
    else
      assert s == [s[0]] + s[1..];
      Insert(s[0], SortColumns(s[1..]))
  }

  // ---------------------------------------------------------------------
  // Sort keys

  predicate UniqueColumns(keys: seq<SortKey>)
  {
    forall i, j :: 0 <= i < j < |keys| ==> keys[i].column != keys[j].column
  }

  /** Position of the first key on `column`, as std::find_if finds it. */
  function FindColumn(keys: seq<SortKey>, column: int): (r: Option<nat>)
    ensures r.None? <==> forall i :: 0 <= i < |keys| ==> keys[i].column != column
    ensures r.Some? ==>
      r.value < |keys| && keys[r.value].column == column && forall i :: 0 <= i < r.value ==> keys[i].column != column
  {
    if keys == [] then None
    else if keys[0].column == column then Some(0)
    else match FindColumn(keys[1..], column)
      case None => None
      case Some(i) => Some(i + 1)
  }

  /** The search loop of setSortColumn. */
  method FindKey(keys: seq<SortKey>, column: int) returns (r: Option<nat>)
    ensures r == FindColumn(keys, column)
  {
    var i := 0;
    while i < |keys|
      invariant 0 <= i <= |keys|
      invariant forall k :: 0 <= k < i ==> keys[k].column != column
    {
      if keys[i].column == column {
        return Some(i);
      }
      i := i + 1;
    }
    return None;
  }

  /** The key list after sorting on `column`: the column goes to the front with its
    * previous direction, or ascending when it is new, and its old entry goes. */
  function MoveToFront(keys: seq<SortKey>, column: int): seq<SortKey>
  {
    match FindColumn(keys, column)
      case None => [SortKey(column, Ascending)] + keys
      case Some(i) => [SortKey(column, keys[i].order)] + RemoveAt(keys, i)
  }

  /** The list without its entry at `i` (std::deque::erase). */
  function RemoveAt(keys: seq<SortKey>, i: nat): seq<SortKey>
    requires i < |keys|
  {
    keys[..i] + keys[i + 1..]
  }

  /** The keys on other columns, in their order. */
  function Others(keys: seq<SortKey>, column: int): seq<SortKey>
  {
    if keys == [] then []
    else if keys[0].column == column then Others(keys[1..], column)
    else [keys[0]] + Others(keys[1..], column)
  }

  lemma {:induction false} OthersAppend(a: seq<SortKey>, b: seq<SortKey>, column: int)
    ensures Others(a + b, column) == Others(a, column) + Others(b, column)
  {
    if a != [] {
      assert (a + b)[0] == a[0];
      assert (a + b)[1..] == a[1..] + b;
      OthersAppend(a[1..], b, column);
    } else {
      assert a + b == b;
    }
  }

  /** Dropping a key on `column` leaves the keys on other columns as they were. */
  lemma RemoveKeepsOthers(keys: seq<SortKey>, i: nat, column: int)
    requires i < |keys| && keys[i].column == column
    ensures Others(RemoveAt(keys, i), column) == Others(keys, column)
  {
    var a, b := keys[..i], keys[i + 1..];
    assert keys == (a + [keys[i]]) + b;
    OthersAppend(a + [keys[i]], b, column);
    OthersAppend(a, [keys[i]], column);
    OthersAppend(a, b, column);
    assert Others([keys[i]], column) == [];
  }

  /** Dropping a key from a list of distinct columns leaves distinct columns,
    * none of them the dropped one's. */
  lemma RemoveKeepsUnique(keys: seq<SortKey>, i: nat)
    requires UniqueColumns(keys) && i < |keys|
    ensures UniqueColumns(RemoveAt(keys, i))
    ensures forall j :: 0 <= j < |keys| - 1 ==> RemoveAt(keys, i)[j].column != keys[i].column
  {
    var r := RemoveAt(keys, i);
    forall j | 0 <= j < |r| ensures r[j] == keys[if j < i then j else j + 1] {
    }
  }

  /** A key on a new column in front of distinct columns keeps them distinct. */
  lemma ConsKeepsUnique(k: SortKey, rest: seq<SortKey>)
    requires UniqueColumns(rest) && forall j :: 0 <= j < |rest| ==> rest[j].column != k.column
    ensures UniqueColumns([k] + rest)
  {
    var r := [k] + rest;
    forall a, b | 0 <= a < b < |r| ensures r[a].column != r[b].column {
      assert r[b] == rest[b - 1];
      if a > 0 {
        assert r[a] == rest[a - 1];
      }
    }
  }

  /** Moving a column to the front puts it first, with the right direction, keeps
    * every other key in its relative order, and keeps columns unique. */
  lemma MoveToFrontKeys(keys: seq<SortKey>, column: int)
    requires UniqueColumns(keys)
    ensures var r := MoveToFront(keys, column);
      |r| >= 1 && r[0].column == column &&
      r[0].order == (match FindColumn(keys, column) case None => Ascending case Some(i) => keys[i].order) &&
      Others(r, column) == Others(keys, column) &&
      UniqueColumns(r)
  {
    match FindColumn(keys, column)
    case None =>
      var front := SortKey(column, Ascending);
      assert MoveToFront(keys, column) == [front] + keys;
      assert ([front] + keys)[1..] == keys;
      ConsKeepsUnique(front, keys);
    case Some(i) =>
      var front := SortKey(column, keys[i].order);
      var rest := RemoveAt(keys, i);
      assert MoveToFront(keys, column) == [front] + rest;
      RemoveKeepsOthers(keys, i, column);
      RemoveKeepsUnique(keys, i);
      assert ([front] + rest)[1..] == rest;
      ConsKeepsUnique(front, rest);
  }

  // ---------------------------------------------------------------------
  // Row comparison

  /** A cell's display value, or None when the position lies outside the model. */
  function CellValue(cells: seq<seq<int>>, row: int, column: int): Option<int>
  {
    if 0 <= row < |cells| && 0 <= column < |cells[row]| then Some(cells[row][column]) else None
  }

  /** The value order: valid values by key, and every valid value before an invalid one. */
  function Before(a: Option<int>, b: Option<int>): bool
  {
    match (a, b)
      case (Some(_), None) => true
      case (Some(x), Some(y)) => x < y
      case _ => false
  }

  /** The source column a sort key reads, given its proxy column: none when hidden. */
  function ReadColumn(column: int, proxyColumn: int): int
  {
    if proxyColumn == -1 then -1 else column
  }

  /**
   * Whether row `a` sorts before row `b`: the first key whose two values differ
   * decides, descending keys swapping the operands, and rows equal on every key
   * are not less. None when a key's column lies outside the source-to-proxy map
   * (std::vector::at throws). Keys on hidden columns read no value and are skipped.
   */
  function LexLess(keys: seq<SortKey>, sourceToProxy: seq<int>, cells: seq<seq<int>>, a: int, b: int): (r: Option<bool>)
    ensures (forall i :: 0 <= i < |keys| ==> 0 <= keys[i].column < |sourceToProxy|) ==> r.Some?
  {
    if keys == [] then Some(false)
    else if !(0 <= keys[0].column < |sourceToProxy|) then None
    else
      var column := ReadColumn(keys[0].column, sourceToProxy[keys[0].column]);
      var va := CellValue(cells, a, column);
      var vb := CellValue(cells, b, column);
      if va == vb then LexLess(keys[1..], sourceToProxy, cells, a, b)
      else Some(if keys[0].order == Descending then Before(vb, va) else Before(va, vb))
  }

  /** The comparison as written: the proxy column is used as a source column. */
  function LexLessAsWritten(keys: seq<SortKey>, sourceToProxy: seq<int>, cells: seq<seq<int>>, a: int, b: int): (r: Option<bool>)
    ensures (forall i :: 0 <= i < |keys| ==> 0 <= keys[i].column < |sourceToProxy|) ==> r.Some?
  {
    if keys == [] then Some(false)
    else if !(0 <= keys[0].column < |sourceToProxy|) then None
    else
      var column := sourceToProxy[keys[0].column];
      var va := CellValue(cells, a, column);
      var vb := CellValue(cells, b, column);
      if va == vb then LexLessAsWritten(keys[1..], sourceToProxy, cells, a, b)
      else Some(if keys[0].order == Descending then Before(vb, va) else Before(va, vb))
  }

  /** With source column 0 hidden, sorting ascending on source column 2 compares
    * column 1 instead: row 0 = [0, 5, 1] and row 1 = [0, 3, 2] are ordered by 5
    * against 3 as written, and by 1 against 2 as intended. */
  lemma AsWrittenComparesWrongColumn()
    ensures LexLessAsWritten([SortKey(2, Ascending)], [-1, 0, 1], [[0, 5, 1], [0, 3, 2]], 0, 1) == Some(false)
    ensures LexLess([SortKey(2, Ascending)], [-1, 0, 1], [[0, 5, 1], [0, 3, 2]], 0, 1) == Some(true)
  {
    var cells := [[0, 5, 1], [0, 3, 2]];
    assert CellValue(cells, 0, 1) == Some(5) && CellValue(cells, 1, 1) == Some(3);
    assert CellValue(cells, 0, 2) == Some(1) && CellValue(cells, 1, 2) == Some(2);
  }

  /** Before is a strict total order on values. */
  lemma BeforeStrict(x: Option<int>, y: Option<int>)
    ensures !Before(x, x)
    ensures Before(x, y) ==> !Before(y, x)
    ensures x != y ==> Before(x, y) || Before(y, x)
    ensures x.Some? && y.None? ==> Before(x, y)
  {}

  /** Before is transitive. */
  lemma BeforeTransitive(x: Option<int>, y: Option<int>, z: Option<int>)
    ensures Before(x, y) && Before(y, z) ==> Before(x, z)
  {}

  /** No row sorts before itself. */
  lemma {:induction false} LexLessIrreflexive(keys: seq<SortKey>, s2p: seq<int>, cells: seq<seq<int>>, a: int)
    ensures LexLess(keys, s2p, cells, a, a) != Some(true)
  {
    if keys != [] && 0 <= keys[0].column < |s2p| {
      LexLessIrreflexive(keys[1..], s2p, cells, a);
    }
  }

  /** Of two distinct orderings of a pair, at most one says "less"; when the
    * comparison is decided, exactly one of the two directions is less. */
  lemma {:induction false} LexLessAsymmetric(keys: seq<SortKey>, s2p: seq<int>, cells: seq<seq<int>>, a: int, b: int)
    ensures LexLess(keys, s2p, cells, a, b) == Some(true) ==> LexLess(keys, s2p, cells, b, a) == Some(false)
    ensures LexLess(keys, s2p, cells, a, b).None? <==> LexLess(keys, s2p, cells, b, a).None?
  {
    if keys != [] && 0 <= keys[0].column < |s2p| {
      var column := ReadColumn(keys[0].column, s2p[keys[0].column]);
      BeforeStrict(CellValue(cells, a, column), CellValue(cells, b, column));
      LexLessAsymmetric(keys[1..], s2p, cells, a, b);
    }
  }

  /**
   * If a sorts before b and b before c, then a sorts before c: together with
   * irreflexivity, the row comparison is the strict order a stable sort needs.
   */
  lemma {:induction false} LexLessTransitive(keys: seq<SortKey>, s2p: seq<int>, cells: seq<seq<int>>, a: int, b: int, c: int)
    requires LexLess(keys, s2p, cells, a, b) == Some(true) && LexLess(keys, s2p, cells, b, c) == Some(true)
    ensures LexLess(keys, s2p, cells, a, c) == Some(true)
  {
    var column := ReadColumn(keys[0].column, s2p[keys[0].column]);
    var va, vb, vc := CellValue(cells, a, column), CellValue(cells, b, column), CellValue(cells, c, column);
    if va == vb && vb == vc {
      LexLessTransitive(keys[1..], s2p, cells, a, b, c);
    } else {
      BeforeTransitive(va, vb, vc);
      BeforeTransitive(vc, vb, va);
      BeforeStrict(va, vc);
    }
  }

  function Flip(keys: seq<SortKey>): (r: seq<SortKey>)
    ensures |r| == |keys|
    ensures forall i :: 0 <= i < |keys| ==> r[i].column == keys[i].column && r[i].order != keys[i].order
  {
    if keys == [] then []
    else [SortKey(keys[0].column, if keys[0].order == Ascending then Descending else Ascending)] + Flip(keys[1..])
  }

  /** Reversing every direction compares the rows the other way round. */
  lemma {:induction false} LexLessFlip(keys: seq<SortKey>, s2p: seq<int>, cells: seq<seq<int>>, a: int, b: int)
    ensures LexLess(Flip(keys), s2p, cells, a, b) == LexLess(keys, s2p, cells, b, a)
  {
    if keys != [] {
      assert Flip(keys)[1..] == Flip(keys[1..]);
      LexLessFlip(keys[1..], s2p, cells, a, b);
    }
  }

  // ---------------------------------------------------------------------
  // Sub-selection

  /** The rows of a selection's indexes. */
  method RowsOf(indexes: seq<ModelIndex>) returns (rows: set<int>)
    ensures forall r :: r in rows <==> exists i :: 0 <= i < |indexes| && indexes[i].row == r
  {
    rows := {};
    var i := 0;
    while i < |indexes|
      invariant 0 <= i <= |indexes|
      invariant forall r :: r in rows <==> exists k :: 0 <= k < i && indexes[k].row == r
    {
      rows := rows + {indexes[i].row};
      i := i + 1;
    }
  }

  // ---------------------------------------------------------------------
  // The proxy model

  class TableProxy {
    /** Columns of the source model. */
    var sourceColumnCount: nat
    var subSelection: seq<ModelIndex>
    var subSelectionRows: set<int>
    var hiddenColumns: seq<int>
    var sourceColumnOrder: seq<int>
    var orderedProxyToSourceColumn: seq<int>
    var unorderedSourceToProxyColumn: seq<int>
    var sortColumnAndOrders: seq<SortKey>

    /** Sort keys on distinct, non-negative columns, and the sub-selected rows those of the sub-selection. */
    ghost predicate Valid()
      reads this
    {
      UniqueColumns(sortColumnAndOrders) &&
      (forall i :: 0 <= i < |sortColumnAndOrders| ==> sortColumnAndOrders[i].column >= 0) &&
      SubSelectionCurrent()
    }

    /** The cached rows are exactly the rows of the sub-selection's indexes. */
    ghost predicate SubSelectionCurrent()
      reads this
    {
      forall r :: r in subSelectionRows <==> exists i :: 0 <= i < |subSelection| && subSelection[i].row == r
    }

    /** The maps as invalidateFilter leaves them. */
    ghost predicate MappingsCurrent()
      reads this
    {
      |sourceColumnOrder| == sourceColumnCount &&
      orderedProxyToSourceColumn == SetDifference(sourceColumnOrder, hiddenColumns) &&
      |unorderedSourceToProxyColumn| == sourceColumnCount &&
      (forall p :: 0 <= p < ColumnCount() ==>
        0 <= Visible(sourceColumnCount, hiddenColumns)[p] < sourceColumnCount &&
        unorderedSourceToProxyColumn[Visible(sourceColumnCount, hiddenColumns)[p]] == p) &&
      (forall s :: 0 <= s < sourceColumnCount && s in hiddenColumns ==> unorderedSourceToProxyColumn[s] == -1)
    }

    constructor (columnCount: nat)
      ensures Valid() && sourceColumnCount == columnCount
      ensures hiddenColumns == [] && sourceColumnOrder == [] && sortColumnAndOrders == [] && subSelectionRows == {}
      ensures subSelection == []
    {
      sourceColumnCount := columnCount;
      subSelection := [];
      subSelectionRows := {};
      hiddenColumns := [];
      sourceColumnOrder := [];
      orderedProxyToSourceColumn := [];
      unorderedSourceToProxyColumn := [];
      sortColumnAndOrders := [];
    }

    /** filterAcceptsColumn: a source column is shown unless hidden. */
    predicate FilterAcceptsColumn(column: int)
      reads this
      ensures 0 <= column < sourceColumnCount ==>
        (FilterAcceptsColumn(column) <==> column in Visible(sourceColumnCount, hiddenColumns))
    {
      VisibleColumns(sourceColumnCount, hiddenColumns);
      column !in hiddenColumns
    }

    /**
     * The proxy's column count: the accepted source columns. It is at most
     * the source's count, all of it when every column is accepted, and 0
     * when none is.
     */
    function ColumnCount(): (n: nat)
      reads this
      ensures n <= sourceColumnCount
      ensures (forall c :: 0 <= c < sourceColumnCount ==> FilterAcceptsColumn(c)) ==> n == sourceColumnCount
      ensures (forall c :: 0 <= c < sourceColumnCount ==> !FilterAcceptsColumn(c)) ==> n == 0
    {
      VisibleExtremes(sourceColumnCount, hiddenColumns);
      assert forall c :: FilterAcceptsColumn(c) <==> c !in hiddenColumns;
      |Visible(sourceColumnCount, hiddenColumns)|
    }

    /** The front sort key's column, or -1 without keys. */
    function SortColumn(): (c: int)
      reads this
      ensures sortColumnAndOrders == [] ==> c == -1
      ensures sortColumnAndOrders != [] ==> c == sortColumnAndOrders[0].column
      ensures Valid() ==> (c == -1 <==> sortColumnAndOrders == [])
    {
      if sortColumnAndOrders == [] then -1 else sortColumnAndOrders[0].column
    }

    /** The front sort key's direction, or Descending without keys. */
    function SortOrder_(): (o: SortOrder)
      reads this
      ensures sortColumnAndOrders == [] ==> o == Descending
      ensures sortColumnAndOrders != [] ==> o == sortColumnAndOrders[0].order
    {
      if sortColumnAndOrders == [] then Descending else sortColumnAndOrders[0].order
    }

    /** Sort on `column` first; a negative column or the current one changes nothing. */
    method SetSortColumn(column: int)
      requires Valid()
      modifies this`sortColumnAndOrders
      ensures Valid()
      ensures column < 0 || column == old(SortColumn()) ==> sortColumnAndOrders == old(sortColumnAndOrders)
      ensures !(column < 0 || column == old(SortColumn())) ==>
        sortColumnAndOrders == MoveToFront(old(sortColumnAndOrders), column) && SortColumn() == column
    {
      if column < 0 || column == SortColumn() {
        return;
      }
      var currentSortOrder := Ascending;
      var existing := FindKey(sortColumnAndOrders, column);
      if existing.Some? {
        var i := existing.value;
        currentSortOrder := sortColumnAndOrders[i].order;
        sortColumnAndOrders := RemoveAt(sortColumnAndOrders, i);
      }
      MoveToFrontKeys(old(sortColumnAndOrders), column);
      sortColumnAndOrders := [SortKey(column, currentSortOrder)] + sortColumnAndOrders;
    }

    /** Change the front key's direction; nothing without keys or when it is already so. */
    method SetSortOrder(order: SortOrder)
      requires Valid()
      modifies this`sortColumnAndOrders
      ensures Valid()
      ensures old(sortColumnAndOrders) == [] || order == old(SortOrder_()) ==>
        sortColumnAndOrders == old(sortColumnAndOrders)
      ensures old(sortColumnAndOrders) != [] ==>
        |sortColumnAndOrders| == |old(sortColumnAndOrders)| &&
        sortColumnAndOrders[0] == SortKey(old(sortColumnAndOrders)[0].column, order) &&
        sortColumnAndOrders[1..] == old(sortColumnAndOrders)[1..]
    {
      if sortColumnAndOrders == [] || order == SortOrder_() {
        return;
      }
      sortColumnAndOrders := [SortKey(sortColumnAndOrders[0].column, order)] + sortColumnAndOrders[1..];
    }

    /** Rebuild the ordered map: a stored order of the wrong length is replaced by
      * the identity, then the hidden columns are removed from it. */
    method CalculateOrderedProxySourceMapping()
      modifies this`sourceColumnOrder, this`orderedProxyToSourceColumn
      ensures sourceColumnOrder ==
        if |old(sourceColumnOrder)| != sourceColumnCount then Range(sourceColumnCount) else old(sourceColumnOrder)
      ensures orderedProxyToSourceColumn == SetDifference(sourceColumnOrder, hiddenColumns)
    {
      if |sourceColumnOrder| != sourceColumnCount {
        sourceColumnOrder := Range(sourceColumnCount);
      }
      orderedProxyToSourceColumn := SetDifference(sourceColumnOrder, hiddenColumns);
    }

    /** Rebuild the source-to-proxy map: each shown column gets its proxy
      * position, counting shown columns in source order; hidden ones get -1. */
    method CalculateUnorderedSourceProxyColumnMapping()
      modifies this`unorderedSourceToProxyColumn
      ensures |unorderedSourceToProxyColumn| == sourceColumnCount
      ensures forall p :: 0 <= p < ColumnCount() ==>
        0 <= Visible(sourceColumnCount, hiddenColumns)[p] < sourceColumnCount &&
        unorderedSourceToProxyColumn[Visible(sourceColumnCount, hiddenColumns)[p]] == p
      ensures forall s :: 0 <= s < sourceColumnCount && s in hiddenColumns ==> unorderedSourceToProxyColumn[s] == -1
    {
      var proxyToSource := ProxyToSourceColumns(sourceColumnCount, hiddenColumns);
      VisibleColumns(sourceColumnCount, hiddenColumns);
      forall i | 0 <= i < |proxyToSource| ensures 0 <= proxyToSource[i] < sourceColumnCount {
        assert proxyToSource[i] in proxyToSource;
      }
      var sourceToProxy := InvertColumns(sourceColumnCount, proxyToSource);
      unorderedSourceToProxyColumn := sourceToProxy;
    }

    /** Refilter and rebuild both maps. */
    method InvalidateFilter()
      modifies this`sourceColumnOrder, this`orderedProxyToSourceColumn, this`unorderedSourceToProxyColumn
      ensures MappingsCurrent()
      ensures sourceColumnOrder ==
        if |old(sourceColumnOrder)| != sourceColumnCount then Range(sourceColumnCount) else old(sourceColumnOrder)
    {
      CalculateOrderedProxySourceMapping();
      CalculateUnorderedSourceProxyColumnMapping();
    }

    /** Hide exactly the given columns, kept in ascending order, and rebuild the maps. */
    method SetHiddenColumns(columns: seq<int>)
      modifies this`hiddenColumns, this`sourceColumnOrder, this`orderedProxyToSourceColumn,
        this`unorderedSourceToProxyColumn
      ensures Sorted(hiddenColumns) && multiset(hiddenColumns) == multiset(columns)
      ensures MappingsCurrent()
      ensures sourceColumnOrder ==
        if |old(sourceColumnOrder)| != sourceColumnCount then Range(sourceColumnCount) else old(sourceColumnOrder)
    {
      hiddenColumns := SortColumns(columns);
      InvalidateFilter();
      CalculateOrderedProxySourceMapping();
    }

    /** Arrange the columns in the given source order and rebuild the maps. */
    method SetColumnOrder(order: seq<int>)
      modifies this`sourceColumnOrder, this`orderedProxyToSourceColumn, this`unorderedSourceToProxyColumn
      ensures MappingsCurrent()
      ensures sourceColumnOrder == if |order| != sourceColumnCount then Range(sourceColumnCount) else order
    {
      sourceColumnOrder := order;
      InvalidateFilter();
    }

    /**
     * The source column shown at ordered position `proxyColumn`: -1 past the
     * last column or while the ordered map disagrees with the column count.
     * None when a negative position reaches std::vector::at.
     */
    function MapOrderedToSourceColumn(proxyColumn: int): (r: Option<int>)
      reads this
      ensures proxyColumn >= ColumnCount() || |orderedProxyToSourceColumn| != ColumnCount() ==> r == Some(-1)
      ensures 0 <= proxyColumn < ColumnCount() == |orderedProxyToSourceColumn| ==>
        r == Some(orderedProxyToSourceColumn[proxyColumn])
      ensures r == None <==> proxyColumn < 0 && 0 < ColumnCount() == |orderedProxyToSourceColumn|
    {
      if proxyColumn >= ColumnCount() then Some(-1)
      else if |orderedProxyToSourceColumn| != ColumnCount() then Some(-1)
      else if orderedProxyToSourceColumn != [] then
        if proxyColumn < 0 then None else Some(orderedProxyToSourceColumn[proxyColumn])
      else Some(proxyColumn)
    }

    /** With the maps current and the stored order a rearrangement of the source
      * columns, each ordered position shows a distinct, non-hidden source column. */
    lemma MapOrderedIsOneToOne(p: int, q: int)
      requires MappingsCurrent() && multiset(sourceColumnOrder) == multiset(Range(sourceColumnCount))
      requires 0 <= p < ColumnCount() && 0 <= q < ColumnCount()
      ensures MapOrderedToSourceColumn(p).Some? && MapOrderedToSourceColumn(q).Some?
      ensures var s := MapOrderedToSourceColumn(p).value;
        0 <= s < sourceColumnCount && FilterAcceptsColumn(s)
      ensures p != q ==> MapOrderedToSourceColumn(p) != MapOrderedToSourceColumn(q)
    {
      OrderedMatchesVisible(sourceColumnOrder, sourceColumnCount, hiddenColumns);
      VisibleColumns(sourceColumnCount, hiddenColumns);
      var ordered := orderedProxyToSourceColumn;
      var s := ordered[p];
      assert s in multiset(ordered);
      assert s in Visible(sourceColumnCount, hiddenColumns);
      if p != q {
        DistinctInVisible(ordered, p, q, Visible(sourceColumnCount, hiddenColumns));
      }
    }

    /** The comparison the sort uses, walking the keys in list order. */
    method LessThan(cells: seq<seq<int>>, rowA: int, rowB: int) returns (r: Option<bool>)
      ensures r == LexLess(sortColumnAndOrders, unorderedSourceToProxyColumn, cells, rowA, rowB)
    {
      var keys := sortColumnAndOrders;
      var s2p := unorderedSourceToProxyColumn;
      var i := 0;
      while i < |keys|
        invariant 0 <= i <= |keys|
        invariant LexLess(keys, s2p, cells, rowA, rowB) == LexLess(keys[i..], s2p, cells, rowA, rowB)
      {
        if !(0 <= keys[i].column < |s2p|) {
          return None;
        }
        var column := ReadColumn(keys[i].column, s2p[keys[i].column]);
        var valueA := CellValue(cells, rowA, column);
        var valueB := CellValue(cells, rowB, column);
        if valueA != valueB {
          return Some(if keys[i].order == Descending then Before(valueB, valueA) else Before(valueA, valueB));
        }
        assert keys[i..][1..] == keys[i + 1..];
        i := i + 1;
      }
      return Some(false);
    }

    /** Record the sub-selection and the set of rows it touches. */
    method SetSubSelection(selection: seq<ModelIndex>)
      requires Valid()
      modifies this`subSelection, this`subSelectionRows
      ensures Valid()
      ensures subSelection == selection
      ensures forall r :: r in subSelectionRows <==> exists i :: 0 <= i < |selection| && selection[i].row == r
    {
      subSelection := selection;
      subSelectionRows := RowsOf(selection);
    }

    /** data(SubSelectedRole): whether the index's row is the row of some sub-selected index. */
    predicate IsSubSelected(index: ModelIndex): (r: bool)
      reads this
      ensures Valid() ==> (r <==> exists i :: 0 <= i < |subSelection| && subSelection[i].row == index.row)
    {
      index.row in subSelectionRows
    }
  }

  /** A list with the same elements, counted, as a strictly increasing one has no repeats. */
  lemma DistinctInVisible(s: seq<int>, p: int, q: int, v: seq<int>)
    requires StrictlyIncreasing(v) && multiset(s) == multiset(v)
    requires 0 <= p < |s| && 0 <= q < |s| && p != q
    ensures s[p] != s[q]
  {
    if s[p] == s[q] {
      var x := s[p];
      var lo := if p < q then p else q;
      var hi := if p < q then q else p;
      assert s == s[..lo] + [s[lo]] + s[lo + 1..hi] + [s[hi]] + s[hi + 1..];
      assert multiset(s)[x] >= 2;
      StrictlyIncreasingCountsOnce(v, x);
      assert false;
    }
  }

  lemma {:induction false} StrictlyIncreasingCountsOnce(v: seq<int>, x: int)
    requires StrictlyIncreasing(v)
    ensures multiset(v)[x] <= 1
  {
    if v != [] {
      StrictlyIncreasingCountsOnce(v[1..], x);
      assert v == [v[0]] + v[1..];
      if v[0] == x {
        assert x !in v[1..];
      }
    }
  }
}
