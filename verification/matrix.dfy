/**
 * The sparse matrix (src/core/matrix.ts).
 *
 * A matrix is a JavaScript array of rows, each an array of cells; both levels
 * may have holes. Here a row slot and a cell are `Option`s: `None` is a hole
 * or an `undefined` element, which the source's reads do not tell apart. The
 * row count is the length of the outer array and the column count is the
 * length of row 0 alone, so every write that widens the matrix widens row 0.
 * Writes are copy-on-write except `MutableSet`.
 */
module Matrix {
  import opened Wrappers
  import opened PointHash

  type Row<T> = seq<Option<T>>
  type Matrix<T> = seq<Option<Row<T>>>

  /** `Size`: the counts `getSize` reports. */
  datatype Size = Size(rows: nat, columns: nat)

  /** A point JavaScript can use as an array index on both levels. */
  predicate IsIndex(p: Point) {
    p.row >= 0 && p.column >= 0
  }

  /** No row slot is a hole. */
  predicate Dense<T>(m: Matrix<T>) {
    forall i :: 0 <= i < |m| ==> m[i].Some?
  }

  function Max(a: int, b: int): int {
    if a < b then b else a
  }

  /** `Array(n)`: `n` empty slots. */
  function Holes<X>(n: nat): (r: seq<Option<X>>)
    ensures |r| == n && forall i :: 0 <= i < n ==> r[i] == None
  {
    seq(n, _ => None)
  }

  /** `a[i]` on an array: `None` outside its bounds. */
  function At<X>(a: seq<Option<X>>, i: int): Option<X> {
    if 0 <= i < |a| then a[i] else None
  }

  /** `a[i] = x` on an array: overwrite in place, or grow to `i + 1` with holes in between. */
  function Assign<X>(a: seq<Option<X>>, i: nat, x: Option<X>): (r: seq<Option<X>>)
    ensures |r| == Max(|a|, i + 1)
    ensures forall j :: 0 <= j < |r| ==> r[j] == if j == i then x else At(a, j)
  {
    if i < |a| then a[i := x] else a + Holes(i - |a|) + [x]
  }

  // ---------------------------------------------------------------------------
  // Reading

  /** `get`: the cell at `p`, or `None` for a missing row or cell. */
  function Get<T>(p: Point, m: Matrix<T>): Option<T> {
    match At(m, p.row)
    case None => None
    case Some(row) => At(row, p.column)
  }

  /** `getRowsCount`. */
  function RowsCount<T>(m: Matrix<T>): nat {
    |m|
  }

  /** `getColumnsCount`: the length of row 0, or 0 without one. */
  function ColumnsCount<T>(m: Matrix<T>): nat {
    match At(m, 0)
    case None => 0
    case Some(firstRow) => |firstRow|
  }

  /** `getSize`. */
  function GetSize<T>(m: Matrix<T>): Size {
    Size(RowsCount(m), ColumnsCount(m))
  }

  /** `has`: checks the row against the row count and the column against row 0 only. */
  predicate Has<T>(p: Point, m: Matrix<T>)
    ensures Has(p, m) <==> 0 <= p.row < GetSize(m).rows && 0 <= p.column < GetSize(m).columns
  {
    && |m| > 0 && m[0].Some?
    && p.row >= 0 && p.column >= 0
    && p.column < |m[0].value|
    && p.row < |m|
  }

  /** `maxPoint`: the bottom-right corner, which bounds every point the matrix has. */
  function MaxPoint<T>(m: Matrix<T>): (r: Point)
    ensures forall p :: Has(p, m) ==> p.row <= r.row && p.column <= r.column
    ensures Has(r, m) <==> GetSize(m).rows > 0 && GetSize(m).columns > 0
  {
    var size := GetSize(m);
    Point(size.rows - 1, size.columns - 1)
  }

  // ---------------------------------------------------------------------------
  // Creating and writing

  /** `createEmpty`: `rows` rows of `columns` holes each. */
  method CreateEmpty<T>(rows: nat, columns: nat) returns (m: Matrix<T>)
    ensures Dense(m) && |m| == rows
    ensures forall i :: 0 <= i < rows ==> |m[i].value| == columns
    ensures GetSize(m) == Size(rows, if rows == 0 then 0 else columns)
    ensures forall p :: Get(p, m) == None
  {
    m := [];
    for i := 0 to rows
      invariant |m| == i
      invariant forall k :: 0 <= k < i ==> m[k] == Some(Holes(columns))
    {
      m := m + [Some(Holes(columns))];
    }
  }

  /**
   * `set`: a copy of `m` with `value` at `p`. Row 0 is widened to cover
   * `p.column` whichever row is written; rows other than 0 and `p.row` are
   * the original rows.
   */
  function Set<T>(p: Point, value: T, m: Matrix<T>): (r: Matrix<T>)
    requires IsIndex(p)
    ensures Get(p, r) == Some(value) && Has(p, r)
    ensures forall q :: q != p ==> Get(q, r) == Get(q, m)
    ensures GetSize(r) == Size(Max(RowsCount(m), p.row + 1), Max(ColumnsCount(m), p.column + 1))
    ensures forall i :: 0 < i < |m| && i != p.row ==> r[i] == m[i]
  {
    var nextFirstRow := At(m, 0).GetOr([]);
    var synced := if |nextFirstRow| - 1 < p.column
                  then Assign(m, 0, Some(Assign(nextFirstRow, p.column, None)))
                  else m;
    var nextRow := At(m, p.row).GetOr([]);
    Assign(synced, p.row, Some(Assign(nextRow, p.column, Some(value))))
  }

  /** A matrix the source updates in place (the argument of `mutableSet`). */
  class MutableMatrix<T> {
    var rows: Matrix<T>

    constructor (rows: Matrix<T>)
      ensures this.rows == rows
    {
      this.rows := rows;
    }
  }

  /** `mutableSet`: the in-place form of `set`; it leaves the same rows and cells behind. */
  method MutableSet<T>(p: Point, value: T, matrix: MutableMatrix<T>)
    requires IsIndex(p)
    modifies matrix
    ensures matrix.rows == Set(p, value, old(matrix.rows))
  {
    ghost var original := matrix.rows;
    if At(matrix.rows, 0).None? {
      matrix.rows := Assign(matrix.rows, 0, Some([]));
    }
    if At(matrix.rows, p.row).None? {
      matrix.rows := Assign(matrix.rows, p.row, Some([]));
    }
    var firstRow := matrix.rows[0].value;
    if !(p.column < |firstRow|) {
      matrix.rows := matrix.rows[0 := Some(Assign(firstRow, p.column, None))];
    }
    var row := matrix.rows[p.row].value;
    matrix.rows := matrix.rows[p.row := Some(Assign(row, p.column, Some(value)))];
    assert |matrix.rows| == |Set(p, value, original)|;
    forall i | 0 <= i < |matrix.rows|
      ensures matrix.rows[i] == Set(p, value, original)[i]
    {
      var written, expected := matrix.rows[i], Set(p, value, original)[i];
      if written.Some? && expected.Some? {
        assert written.value == expected.value;
      }
    }
  }

  /**
   * `unset`: `m` itself when it does not have `p`; otherwise a copy with the
   * cell at `p` emptied and the size unchanged. The source spreads the row at
   * `p.row`, so that row must not be a hole.
   */
  function Unset<T>(p: Point, m: Matrix<T>): (r: Matrix<T>)
    requires Has(p, m) ==> m[p.row].Some?
    ensures !Has(p, m) ==> r == m
    ensures Has(p, m) ==> Get(p, r) == None && GetSize(r) == GetSize(m)
    ensures forall q :: q != p ==> Get(q, r) == Get(q, m)
  {
    if !Has(p, m) then m
    else m[p.row := Some(Assign(m[p.row].value, p.column, None))]
  }

  // ---------------------------------------------------------------------------
  // Batched writes

  /** The value of the last entry for `p`, if any: the write that wins. */
  function LastWrite<T>(entries: seq<(Point, T)>, p: Point): Option<T> {
    if entries == [] then None
    else if entries[|entries| - 1].0 == p then Some(entries[|entries| - 1].1)
    else LastWrite(entries[..|entries| - 1], p)
  }

  /** The cell at `p` once `entries` are written over `m`. */
  function Overlay<T>(entries: seq<(Point, T)>, m: Matrix<T>, p: Point): Option<T> {
    match LastWrite(entries, p)
    case Some(v) => Some(v)
    case None => Get(p, m)
  }

  predicate AllIndices<T>(entries: seq<(Point, T)>) {
    forall k :: 0 <= k < |entries| ==> IsIndex(entries[k].0)
  }

  /** Whether some entry writes into row `row`. */
  predicate RowTouched<T>(entries: seq<(Point, T)>, row: int) {
    exists k :: 0 <= k < |entries| && entries[k].0.row == row
  }

  /** The `maxColumn` counter of `setMultiple` after `entries`, starting from `start`. */
  function MaxColumn<T>(entries: seq<(Point, T)>, start: nat): (n: nat)
    requires AllIndices(entries)
    ensures n >= start
    ensures forall k :: 0 <= k < |entries| ==> entries[k].0.column < n
    ensures n == start || exists k :: 0 <= k < |entries| && n == entries[k].0.column + 1
  {
    if entries == [] then start
    else
      var n := MaxColumn(entries[..|entries| - 1], start);
      var column := entries[|entries| - 1].0.column;
      if column >= n then column + 1 else n
  }

  /** The `maxRow` counter of `setMultiple` after `entries`, starting from `start`. */
  function MaxRow<T>(entries: seq<(Point, T)>, start: nat): (n: nat)
    requires AllIndices(entries)
    ensures n >= start
    ensures forall k :: 0 <= k < |entries| ==> entries[k].0.row < n
    ensures n == start || exists k :: 0 <= k < |entries| && n == entries[k].0.row + 1
  {
    if entries == [] then start
    else
      var n := MaxRow(entries[..|entries| - 1], start);
      var row := entries[|entries| - 1].0.row;
      if row >= n then row + 1 else n
  }

  /** `set` applied for each entry in turn: the meaning `setMultiple` must match. */
  function SetEach<T>(entries: seq<(Point, T)>, m: Matrix<T>): Matrix<T>
    requires AllIndices(entries)
  {
    if entries == [] then m
    else Set(entries[|entries| - 1].0, entries[|entries| - 1].1, SetEach(entries[..|entries| - 1], m))
  }

  /**
   * Writing the entries one `set` at a time leaves the last write for each
   * point, every other cell as it was, and the row and column counts grown
   * exactly to the largest written row and column.
   */
  lemma {:induction false} SetEachContents<T>(entries: seq<(Point, T)>, m: Matrix<T>)
    requires AllIndices(entries)
    ensures forall q :: Get(q, SetEach(entries, m)) == Overlay(entries, m, q)
    ensures GetSize(SetEach(entries, m)) == Size(MaxRow(entries, |m|), MaxColumn(entries, ColumnsCount(m)))
  {
    if entries != [] {
      var init := entries[..|entries| - 1];
      SetEachContents(init, m);
    }
  }

  /** Some member of a non-empty set of columns. */
  method PickColumn(columns: set<int>) returns (c: int)
    requires columns != {}
    ensures c in columns
  {
    assert exists k :: k in columns by {
      if forall k :: k !in columns {
        assert false;
      }
    }
    c :| c in columns;
  }

  /** `row` with the changes of the columns in `done` written over it. */
  ghost predicate Applied<T>(r: Row<T>, row: Row<T>, rowChanges: map<int, T>, done: set<int>) {
    && done <= rowChanges.Keys
    && |r| >= |row| && (forall c :: c in done ==> c < |r|)
    && (|r| == |row| || |r| - 1 in done)
    && forall c :: At(r, c) == if c in done then Some(rowChanges[c]) else At(row, c)
  }

  lemma ApplyOne<T>(r: Row<T>, row: Row<T>, rowChanges: map<int, T>, done: set<int>, column: nat)
    requires Applied(r, row, rowChanges, done) && column in rowChanges
    ensures Applied(Assign(r, column, Some(rowChanges[column])), row, rowChanges, done + {column})
  {
  }

  /** Writes the cells of `rowChanges` into a copy of `row`, growing it as needed. */
  method ApplyChanges<T>(row: Row<T>, rowChanges: map<int, T>) returns (r: Row<T>)
    requires forall c :: c in rowChanges ==> c >= 0
    ensures |r| >= |row| && forall c :: c in rowChanges ==> c < |r|
    ensures |r| == |row| || |r| - 1 in rowChanges
    ensures forall c :: At(r, c) == if c in rowChanges then Some(rowChanges[c]) else At(row, c)
  {
    r := row;
    var rest := rowChanges.Keys;
    while rest != {}
      invariant rest <= rowChanges.Keys
      invariant Applied(r, row, rowChanges, rowChanges.Keys - rest)
      decreases rest
    {
      var column := PickColumn(rest);
      ApplyOne(r, row, rowChanges, rowChanges.Keys - rest, column);
      r := Assign(r, column, Some(rowChanges[column]));
      assert rowChanges.Keys - (rest - {column}) == (rowChanges.Keys - rest) + {column};
      rest := rest - {column};
    }
    assert rowChanges.Keys - rest == rowChanges.Keys;
  }

  /** What `setMultiple` collects from the entries: per row, per column, the value written last. */
  ghost predicate ChangesOf<T>(changes: map<int, map<int, T>>, entries: seq<(Point, T)>) {
    && (forall row :: row in changes <==> RowTouched(entries, row))
    && (forall row :: row in changes ==> forall c :: c in changes[row] ==> c >= 0)
    && (forall p: Point :: LastWrite(entries, p).Some? <==> p.row in changes && p.column in changes[p.row])
    && (forall p: Point :: p.row in changes && p.column in changes[p.row] ==>
          LastWrite(entries, p) == Some(changes[p.row][p.column]))
  }

  lemma LastWriteSnoc<T>(entries: seq<(Point, T)>, i: nat, p: Point)
    requires i < |entries|
    ensures LastWrite(entries[..i + 1], p) ==
      if entries[i].0 == p then Some(entries[i].1) else LastWrite(entries[..i], p)
  {
    assert entries[..i + 1][..i] == entries[..i];
  }

  lemma RowTouchedSnoc<T>(entries: seq<(Point, T)>, i: nat, row: int)
    requires i < |entries|
    ensures RowTouched(entries[..i + 1], row) <==> RowTouched(entries[..i], row) || entries[i].0.row == row
  {
    if RowTouched(entries[..i + 1], row) && entries[i].0.row != row {
      var k :| 0 <= k < i + 1 && entries[..i + 1][k].0.row == row;
      assert entries[..i][k].0.row == row;
    }
    if RowTouched(entries[..i], row) {
      var k :| 0 <= k < i && entries[..i][k].0.row == row;
      assert entries[..i + 1][k].0.row == row;
    }
  }

  /** Recording entry `i` in the per-row changes keeps them the changes of the entries so far. */
  lemma CollectStep<T>(entries: seq<(Point, T)>, i: nat, changes: map<int, map<int, T>>)
    requires i < |entries| && AllIndices(entries) && ChangesOf(changes, entries[..i])
    ensures ChangesOf(Record(changes, entries[i].0, entries[i].1), entries[..i + 1])
  {
    var next := Record(changes, entries[i].0, entries[i].1);
    forall row
      ensures row in next <==> RowTouched(entries[..i + 1], row)
    {
      RowTouchedSnoc(entries, i, row);
    }
    forall p: Point
      ensures LastWrite(entries[..i + 1], p).Some? <==> p.row in next && p.column in next[p.row]
      ensures p.row in next && p.column in next[p.row] ==> LastWrite(entries[..i + 1], p) == Some(next[p.row][p.column])
    {
      LastWriteSnoc(entries, i, p);
    }
  }

  /** `changes` with `value` recorded for `point`. */
  function Record<T>(changes: map<int, map<int, T>>, point: Point, value: T): map<int, map<int, T>> {
    var rowChanges := if point.row in changes then changes[point.row] else map[];
    changes[point.row := rowChanges[point.column := value]]
  }

  /** The first pass of `setMultiple`: the changes by row, and the grown row and column counts. */
  method CollectChanges<T>(entries: seq<(Point, T)>, m: Matrix<T>)
    returns (changes: map<int, map<int, T>>, maxRow: nat, maxColumn: nat)
    requires AllIndices(entries)
    ensures ChangesOf(changes, entries)
    ensures maxRow == MaxRow(entries, |m|) && maxColumn == MaxColumn(entries, ColumnsCount(m))
  {
    changes := map[];
    maxColumn := ColumnsCount(m);
    maxRow := |m|;
    for i := 0 to |entries|
      invariant maxColumn == MaxColumn(entries[..i], ColumnsCount(m))
      invariant maxRow == MaxRow(entries[..i], |m|)
      invariant ChangesOf(changes, entries[..i])
    {
      var (point, value) := entries[i];
      assert entries[..i + 1][..i] == entries[..i];
      CollectStep(entries, i, changes);
      var rowChanges := if point.row in changes then changes[point.row] else map[];
      changes := changes[point.row := rowChanges[point.column := value]];
      if point.column >= maxColumn {
        maxColumn := point.column + 1;
      }
      if point.row >= maxRow {
        maxRow := point.row + 1;
      }
    }
    assert entries[..|entries|] == entries;
  }

  /** Row `i` of `r` is present and holds `changes` written over row `i` of `m`. */
  ghost predicate RowHolds<T>(r: Matrix<T>, i: int, changes: map<int, map<int, T>>, m: Matrix<T>) {
    && 0 <= i < |r| && r[i].Some?
    && forall c :: At(r[i].value, c) ==
         if i in changes && c in changes[i] then Some(changes[i][c]) else Get(Point(i, c), m)
  }

  /** The new row 0 of `setMultiple`: widened to `maxColumn`, with its changes written. */
  method NextFirstRow<T>(changes: map<int, map<int, T>>, m: Matrix<T>, maxColumn: nat) returns (r: Row<T>)
    requires ColumnsCount(m) <= maxColumn
    requires 0 in changes ==> forall c :: c in changes[0] ==> 0 <= c < maxColumn
    ensures |r| == maxColumn
    ensures forall c :: At(r, c) == if 0 in changes && c in changes[0] then Some(changes[0][c]) else Get(Point(0, c), m)
  {
    var originalFirstRow := At(m, 0);
    if 0 in changes || (originalFirstRow.Some? && |originalFirstRow.value| < maxColumn) {
      r := originalFirstRow.GetOr([]);
      if |r| < maxColumn {
        r := r + Holes(maxColumn - |r|);
      }
      if 0 in changes {
        r := ApplyChanges(r, changes[0]);
      }
    } else if originalFirstRow.Some? {
      r := originalFirstRow.value;
    } else {
      r := Holes(maxColumn);
    }
  }

  /** Every recorded change lies inside the grown row and column counts. */
  lemma ChangesBounded<T>(entries: seq<(Point, T)>, changes: map<int, map<int, T>>, rows: nat, columns: nat)
    requires AllIndices(entries) && ChangesOf(changes, entries)
    ensures forall row, c :: row in changes && c in changes[row] ==>
      0 <= row < MaxRow(entries, rows) && 0 <= c < MaxColumn(entries, columns)
  {
    forall row, c | row in changes && c in changes[row]
      ensures 0 <= row < MaxRow(entries, rows) && 0 <= c < MaxColumn(entries, columns)
    {
      assert LastWrite(entries, Point(row, c)).Some?;
      LastWriteIsEntry(entries, Point(row, c));
    }
  }

  /** The second pass of `setMultiple`: a new outer array of `maxRow` rows, copying only the rows that change. */
  method BuildRows<T>(changes: map<int, map<int, T>>, m: Matrix<T>, maxRow: nat, maxColumn: nat)
    returns (r: Matrix<T>)
    requires 0 < maxRow && |m| <= maxRow && ColumnsCount(m) <= maxColumn
    requires forall row, c :: row in changes && c in changes[row] ==> 0 <= row < maxRow && 0 <= c < maxColumn
    ensures |r| == maxRow && r[0].Some? && |r[0].value| == maxColumn
    ensures forall i :: 0 <= i < maxRow ==> RowHolds(r, i, changes, m)
    ensures forall i :: 0 < i < maxRow && i !in changes ==> r[i] == (if At(m, i).Some? then m[i] else Some([]))
  {
    r := Holes(maxRow);
    var firstRow := NextFirstRow(changes, m, maxColumn);
    r := r[0 := Some(firstRow)];
    for row := 1 to maxRow
      invariant |r| == maxRow
      invariant r[0] == Some(firstRow)
      invariant forall i :: 0 <= i < row ==> RowHolds(r, i, changes, m)
      invariant forall i :: 0 < i < row && i !in changes ==>
        r[i] == (if At(m, i).Some? then m[i] else Some([]))
    {
      var originalRow := At(m, row);
      ghost var before := r;
      if row in changes {
        var nextRow := ApplyChanges(originalRow.GetOr([]), changes[row]);
        r := r[row := Some(nextRow)];
      } else if originalRow.Some? {
        r := r[row := originalRow];
      } else {
        r := r[row := Some([])];
      }
      forall i | 0 <= i <= row
        ensures RowHolds(r, i, changes, m)
      {
        if i < row {
          assert r[i] == before[i];
          assert RowHolds(before, i, changes, m);
        }
      }
    }
  }

  /** `setMultiple` records no change exactly when it is given no entry. */
  lemma NoChangesIffNoEntries<T>(entries: seq<(Point, T)>, changes: map<int, map<int, T>>)
    requires ChangesOf(changes, entries)
    ensures |changes| == 0 <==> entries == []
  {
    if entries == [] {
      forall row
        ensures row !in changes.Keys
      {
        assert !RowTouched(entries, row);
      }
      assert changes.Keys == {};
    } else {
      assert RowTouched(entries, entries[0].0.row);
      assert entries[0].0.row in changes.Keys;
    }
  }

  /**
   * `setMultiple`: writes all entries in one copy. The last write to a point
   * wins; no entries gives `m` itself. Row 0 is widened to the widest written
   * column even when no entry writes row 0; every other row that no entry
   * writes is the original row, or a new empty row where `m` had none.
   */
  method SetMultiple<T>(entries: seq<(Point, T)>, m: Matrix<T>) returns (r: Matrix<T>)
    requires AllIndices(entries)
    ensures entries == [] ==> r == m
    ensures forall q :: Get(q, r) == Overlay(entries, m, q)
    ensures GetSize(r) == Size(MaxRow(entries, |m|), MaxColumn(entries, ColumnsCount(m)))
    ensures entries != [] ==> Dense(r)
    ensures entries != [] ==> forall i :: 0 < i < |r| && !RowTouched(entries, i) ==>
      r[i] == (if At(m, i).Some? then m[i] else Some([]))
  {
    var changes, maxRow, maxColumn := CollectChanges(entries, m);
    NoChangesIffNoEntries(entries, changes);
    if |changes| == 0 {
      return m;
    }
    ChangesBounded(entries, changes, |m|, ColumnsCount(m));
    assert entries[0].0.row < maxRow;
    r := BuildRows(changes, m, maxRow, maxColumn);
    OverlayFromRows(entries, m, changes, r);
    assert Dense(r) by {
      forall i | 0 <= i < |r|
        ensures r[i].Some?
      {
        assert RowHolds(r, i, changes, m);
      }
    }
    assert ColumnsCount(r) == maxColumn;
    forall i | 0 < i < |r| && !RowTouched(entries, i)
      ensures r[i] == (if At(m, i).Some? then m[i] else Some([]))
    {
      assert i !in changes;
    }
  }

  /** Rows that each hold their changes make up the overlay of the entries. */
  lemma OverlayFromRows<T>(entries: seq<(Point, T)>, m: Matrix<T>, changes: map<int, map<int, T>>, r: Matrix<T>)
    requires AllIndices(entries) && ChangesOf(changes, entries)
    requires |r| == MaxRow(entries, |m|)
    requires forall i :: 0 <= i < |r| ==> RowHolds(r, i, changes, m)
    ensures forall q :: Get(q, r) == Overlay(entries, m, q)
  {
    forall q
      ensures Get(q, r) == Overlay(entries, m, q)
    {
      if 0 <= q.row < |r| {
        assert RowHolds(r, q.row, changes, m);
      } else if LastWrite(entries, q).Some? {
        LastWriteIsEntry(entries, q);
        assert false;
      }
    }
  }

  /** A winning write is one of the entries. */
  lemma {:induction false} LastWriteIsEntry<T>(entries: seq<(Point, T)>, p: Point)
    requires LastWrite(entries, p).Some?
    ensures exists k :: 0 <= k < |entries| && entries[k].0 == p
  {
    var last := |entries| - 1;
    if entries[last].0 != p {
      var init := entries[..last];
      LastWriteIsEntry(init, p);
      var k :| 0 <= k < |init| && init[k].0 == p;
      assert entries[k].0 == p;
    }
  }

  // ---------------------------------------------------------------------------
  // Padding

  /**
   * `padRows`: `m` itself when it has `totalRows` rows already, else `m`
   * followed by empty rows as wide as `m`'s column count.
   */
  function PadRows<T>(m: Matrix<T>, totalRows: int): (r: Matrix<T>)
    ensures RowsCount(m) >= totalRows ==> r == m
    ensures GetSize(r) == Size(Max(RowsCount(m), totalRows), ColumnsCount(m))
    ensures r[..|m|] == m
    ensures forall q :: Get(q, r) == Get(q, m)
  {
    var rows := RowsCount(m);
    if rows >= totalRows then m
    else
      var emptyRow: Option<Row<T>> := Some(Holes(ColumnsCount(m)));
      m + seq(totalRows - rows, _ => emptyRow)
  }

  /**
   * `pad`: `m` itself when it is at least `size` in both directions; else
   * every row gets the missing columns appended and empty rows of the new
   * width are added below. The source spreads every row when it adds
   * columns, so no row may then be a hole.
   */
  function Pad<T>(m: Matrix<T>, size: Size): (r: Matrix<T>)
    requires size.columns > ColumnsCount(m) ==> Dense(m)
    ensures RowsCount(m) >= size.rows && ColumnsCount(m) >= size.columns ==> r == m
    ensures GetSize(r).rows == Max(RowsCount(m), size.rows)
    ensures GetSize(r).columns == if GetSize(r).rows == 0 then 0 else Max(ColumnsCount(m), size.columns)
    ensures forall q :: Get(q, r) == Get(q, m)
  {
    var rows, columns := RowsCount(m), ColumnsCount(m);
    if rows >= size.rows && columns >= size.columns then m
    else
      var resultRows := Max(size.rows, rows);
      var resultColumns := Max(size.columns, columns);
      var widened := if resultColumns > columns then Widen(m, resultColumns - columns) else m;
      if resultRows > rows
      then widened + seq(resultRows - rows, _ => Some(Holes(resultColumns)))
      else widened
  }

  /** Every row of a dense matrix with `extra` empty cells appended. */
  function Widen<T>(m: Matrix<T>, extra: nat): (r: Matrix<T>)
    requires Dense(m)
    ensures |r| == |m| && Dense(r)
    ensures forall i :: 0 <= i < |m| ==> |r[i].value| == |m[i].value| + extra
    ensures forall q :: Get(q, r) == Get(q, m)
  {
    var r := seq(|m|, i requires 0 <= i < |m| => Some(m[i].value + Holes(extra)));
    WidenKeepsCells(m, extra, r);
    r
  }

  lemma WidenKeepsCells<T>(m: Matrix<T>, extra: nat, r: Matrix<T>)
    requires Dense(m) && |r| == |m|
    requires forall i :: 0 <= i < |m| ==> r[i] == Some(m[i].value + Holes(extra))
    ensures forall q :: Get(q, r) == Get(q, m)
  {
    forall q
      ensures Get(q, r) == Get(q, m)
    {
      if 0 <= q.row < |m| {
        var row := m[q.row].value;
        if 0 <= q.column < |row| {
          assert r[q.row].value[q.column] == row[q.column];
        }
      }
    }
  }

  // ---------------------------------------------------------------------------
  // Whole-matrix traversals

  /**
   * `slice`: the block from `start` to `end`, both corners included. Every
   * row of the result is as wide as the block. `Array(columns)` throws for a
   * negative width, so a block with at least one row may not end left of
   * where it starts.
   */
  method Slice<T>(start: Point, end: Point, m: Matrix<T>) returns (r: Matrix<T>)
    requires start.row <= end.row ==> start.column <= end.column
    ensures |r| == if start.row <= end.row then end.row - start.row + 1 else 0
    ensures Dense(r) && forall i :: 0 <= i < |r| ==> |r[i].value| == end.column - start.column + 1
    ensures forall q ::
              Get(q, r) == if 0 <= q.row <= end.row - start.row && 0 <= q.column <= end.column - start.column
                           then Get(Point(start.row + q.row, start.column + q.column), m)
                           else None
  {
    r := [];
    var columns := end.column - start.column;
    var row := start.row;
    while row <= end.row
      invariant start.row <= row <= end.row + 1 || (row == start.row && start.row > end.row)
      invariant |r| == row - start.row
      invariant Dense(r) && forall i :: 0 <= i < |r| ==> |r[i].value| == columns + 1
      invariant forall i, c :: 0 <= i < |r| && 0 <= c <= columns ==>
        r[i].value[c] == Get(Point(start.row + i, start.column + c), m)
      decreases end.row - row
    {
      var slicedRow := SliceRow(row, start.column, end.column, m);
      r := r + [Some(slicedRow)];
      row := row + 1;
    }
  }

  /** The inner loop of `slice`: the cells of row `row` from column `first` to column `last`, both included. */
  method SliceRow<T>(row: int, first: int, last: int, m: Matrix<T>) returns (slicedRow: Row<T>)
    requires first <= last
    ensures |slicedRow| == last - first + 1
    ensures forall c :: 0 <= c < |slicedRow| ==> slicedRow[c] == Get(Point(row, first + c), m)
  {
    var columns := last - first;
    slicedRow := Holes(columns);
    var column := first;
    while column <= last
      invariant first <= column <= last + 1
      invariant |slicedRow| == Max(columns, column - first)
      invariant forall c :: 0 <= c < column - first ==> slicedRow[c] == Get(Point(row, first + c), m)
      decreases last - column
    {
      slicedRow := Assign(slicedRow, column - first, Get(Point(row, column), m));
      column := column + 1;
    }
  }

  /**
   * `map`: a dense matrix of the same row count and of row 0's width, with
   * `f` applied to every cell and its point; an empty matrix maps to `[]`.
   */
  method Map<T, U>(f: (Option<T>, Point) -> U, m: Matrix<T>) returns (r: Matrix<U>)
    ensures |r| == |m|
    ensures Dense(r) && forall i :: 0 <= i < |r| ==> |r[i].value| == ColumnsCount(m)
    ensures forall q :: Get(q, r) == if Has(q, m) then Some(f(Get(q, m), q)) else None
  {
    var rows := |m|;
    if rows == 0 {
      return [];
    }
    var columns := ColumnsCount(m);
    r := [];
    for row := 0 to rows
      invariant |r| == row
      invariant Dense(r) && forall i :: 0 <= i < row ==> |r[i].value| == columns
      invariant forall i, c :: 0 <= i < row && 0 <= c < columns ==>
        r[i].value[c] == Some(f(Get(Point(i, c), m), Point(i, c)))
    {
      var newRow: Row<U> := [];
      for column := 0 to columns
        invariant |newRow| == column
        invariant forall c :: 0 <= c < column ==> newRow[c] == Some(f(Get(Point(row, c), m), Point(row, c)))
      {
        newRow := newRow + [Some(f(Get(Point(row, column), m), Point(row, column)))];
      }
      r := r + [Some(newRow)];
    }
  }

  /** The cells of row `i`, in column order, with their points. */
  function RowEntries<T>(i: int, row: Row<T>): (r: seq<(Point, Option<T>)>)
    ensures |r| == |row|
    ensures forall j :: 0 <= j < |row| ==> r[j] == (Point(i, j), row[j])
  {
    seq(|row|, j requires 0 <= j < |row| => (Point(i, j), row[j]))
  }

  /** Every cell of a dense matrix with its point, row by row. */
  function EntriesOf<T>(m: Matrix<T>): seq<(Point, Option<T>)>
    requires Dense(m)
  {
    if m == [] then [] else EntriesOf(m[..|m| - 1]) + RowEntries(|m| - 1, m[|m| - 1].value)
  }

  /** Row-major order: `p` comes strictly before `q`. */
  predicate Before(p: Point, q: Point) {
    p.row < q.row || (p.row == q.row && p.column < q.column)
  }

  /** `p` lies inside its own row of the dense matrix `m`. */
  predicate InRow<T>(m: Matrix<T>, p: Point)
    requires Dense(m)
  {
    0 <= p.row < |m| && 0 <= p.column < |m[p.row].value|
  }

  /**
   * The entries of a matrix are exactly its cells inside each row's own
   * length, each paired with the value `get` reads there, in strictly
   * increasing row-major order (so every point appears once).
   */
  lemma {:induction false} EntriesOfCells<T>(m: Matrix<T>)
    requires Dense(m)
    ensures forall k :: 0 <= k < |EntriesOf(m)| ==>
      InRow(m, EntriesOf(m)[k].0) && EntriesOf(m)[k].1 == Get(EntriesOf(m)[k].0, m)
    ensures forall p :: InRow(m, p) ==> (p, Get(p, m)) in EntriesOf(m)
    ensures forall k, l :: 0 <= k < l < |EntriesOf(m)| ==> Before(EntriesOf(m)[k].0, EntriesOf(m)[l].0)
  {
    if m != [] {
      var init := m[..|m| - 1];
      var last := |m| - 1;
      EntriesOfCells(init);
      var e, left, right := EntriesOf(m), EntriesOf(init), RowEntries(last, m[last].value);
      assert e == left + right;
      forall k | 0 <= k < |e|
        ensures InRow(m, e[k].0) && e[k].1 == Get(e[k].0, m)
      {
        if k < |left| {
          assert e[k] == left[k];
          assert InRow(init, left[k].0);
        } else {
          assert e[k] == right[k - |left|];
        }
      }
      forall p | InRow(m, p)
        ensures (p, Get(p, m)) in e
      {
        if p.row < last {
          assert InRow(init, p);
          assert (p, Get(p, init)) in left;
        } else {
          assert right[p.column] == (p, Get(p, m));
        }
      }
      forall k, l | 0 <= k < l < |e|
        ensures Before(e[k].0, e[l].0)
      {
        if l < |left| {
          assert e[k] == left[k] && e[l] == left[l];
        } else if k < |left| {
          assert e[k] == left[k] && InRow(init, left[k].0);
          assert e[l] == right[l - |left|];
        } else {
          assert e[k] == right[k - |left|] && e[l] == right[l - |left|];
        }
      }
    }
  }

  /** The entries of row `row` with its first `column` cells listed. */
  lemma EntriesStep<T>(m: Matrix<T>, row: nat)
    requires Dense(m) && row < |m|
    ensures EntriesOf(m[..row + 1]) == EntriesOf(m[..row]) + RowEntries(row, m[row].value)
  {
    assert m[..row + 1][..row] == m[..row];
  }

  /** `entries`: every cell of every row with its point, row by row. A hole row makes the source throw. */
  method Entries<T>(m: Matrix<T>) returns (r: seq<(Point, Option<T>)>)
    requires Dense(m)
    ensures r == EntriesOf(m)
  {
    r := [];
    for row := 0 to |m|
      invariant r == EntriesOf(m[..row])
    {
      var values := m[row].value;
      ghost var before := r;
      for column := 0 to |values|
        invariant r == before + RowEntries(row, values[..column])
      {
        r := r + [(Point(row, column), values[column])];
      }
      assert values[..|values|] == values;
      EntriesStep(m, row);
    }
    assert m[..|m|] == m;
  }

  /**
   * `toArray`: the cells of every row, row by row, each passed with its point
   * through `transform`. A hole row makes the source throw.
   */
  method ToArray<T, U>(m: Matrix<T>, transform: (Option<T>, Point) -> U) returns (r: seq<U>)
    requires Dense(m)
    ensures |r| == |EntriesOf(m)|
    ensures forall k :: 0 <= k < |r| ==> r[k] == transform(EntriesOf(m)[k].1, EntriesOf(m)[k].0)
  {
    r := [];
    for row := 0 to |m|
      invariant |r| == |EntriesOf(m[..row])|
      invariant forall k :: 0 <= k < |r| ==> r[k] == transform(EntriesOf(m[..row])[k].1, EntriesOf(m[..row])[k].0)
    {
      var values := m[row].value;
      EntriesStep(m, row);
      for column := 0 to |values|
        invariant |r| == |EntriesOf(m[..row])| + column
        invariant forall k :: 0 <= k < |r| ==> r[k] == transform(EntriesOf(m[..row + 1])[k].1, EntriesOf(m[..row + 1])[k].0)
      {
        r := r + [transform(values[column], Point(row, column))];
      }
    }
    assert m[..|m|] == m;
  }

  // ---------------------------------------------------------------------------
  // Text

  /** `parts.join(separator)`. */
  function JoinWith(parts: seq<string>, separator: string): string {
    if parts == [] then ""
    else if |parts| == 1 then parts[0]
    else parts[0] + separator + JoinWith(parts[1..], separator)
  }

  /** `s.split(separator)` for a one-character separator. */
  function SplitOn(s: string, separator: char): seq<string>
    decreases |s|
  {
    var i := IndexOf(s, separator);
    if i < 0 then [s] else [s[..i]] + SplitOn(s[i + 1..], separator)
  }

  /** Splitting at a one-character separator that no part contains gives the parts back. */
  lemma {:induction false} SplitJoin(parts: seq<string>, separator: char)
    requires parts != []
    requires forall k :: 0 <= k < |parts| ==> separator !in parts[k]
    ensures SplitOn(JoinWith(parts, [separator]), separator) == parts
  {
    if |parts| > 1 {
      var rest := JoinWith(parts[1..], [separator]);
      var s := parts[0] + [separator] + rest;
      var i := |parts[0]|;
      assert s[i] == separator;
      assert IndexOf(s, separator) == i by {
        assert s[..i] == parts[0];
      }
      assert s[..i] == parts[0];
      assert s[i + 1..] == rest;
      SplitJoin(parts[1..], separator);
    }
  }

  /** The text `join` writes for a cell: `String(value)`, or nothing for an empty cell. */
  function CellText<T>(m: Matrix<T>, show: T -> string, row: int, column: int): string {
    match Get(Point(row, column), m)
    case Some(v) => show(v)
    case None => ""
  }

  /** The texts of the cells of row `row`, as many as row 0 is wide. */
  function RowTexts<T>(m: Matrix<T>, show: T -> string, row: int): (r: seq<string>)
    ensures |r| == ColumnsCount(m)
    ensures forall c :: 0 <= c < |r| ==> r[c] == CellText(m, show, row, c)
  {
    seq(ColumnsCount(m), c => CellText(m, show, row, c))
  }

  /** The line `join` writes for each row. */
  function Lines<T>(m: Matrix<T>, show: T -> string, horizontal: string): (r: seq<string>)
    ensures |r| == |m|
    ensures forall i :: 0 <= i < |r| ==> r[i] == JoinWith(RowTexts(m, show, i), horizontal)
  {
    seq(|m|, i => JoinWith(RowTexts(m, show, i), horizontal))
  }

  /** What `join` produces: the lines joined by the vertical separator, or "" for a matrix without cells. */
  function JoinText<T>(m: Matrix<T>, show: T -> string, horizontal: string, vertical: string): string {
    if RowsCount(m) == 0 || ColumnsCount(m) == 0 then ""
    else JoinWith(Lines(m, show, horizontal), vertical)
  }

  /**
   * `join`, with `show` for JavaScript's `String`: row strings of
   * `horizontal`-separated cell texts, joined by `vertical`.
   */
  method Join<T>(m: Matrix<T>, show: T -> string, horizontal: string, vertical: string) returns (r: string)
    ensures r == JoinText(m, show, horizontal, vertical)
  {
    var size := GetSize(m);
    if size.rows == 0 || size.columns == 0 {
      return "";
    }
    var rowStrings: seq<string> := [];
    for row := 0 to size.rows
      invariant rowStrings == Lines(m, show, horizontal)[..row]
    {
      var cellValues: seq<string> := [];
      for column := 0 to size.columns
        invariant cellValues == RowTexts(m, show, row)[..column]
      {
        cellValues := cellValues + [CellText(m, show, row, column)];
      }
      assert cellValues == RowTexts(m, show, row);
      rowStrings := rowStrings + [JoinWith(cellValues, horizontal)];
    }
    assert rowStrings == Lines(m, show, horizontal);
    r := JoinWith(rowStrings, vertical);
  }

  /**
   * With one-character separators that no cell text contains, the text of
   * `join` splits back into its rows at the vertical separator and every row
   * into its cell texts at the horizontal one.
   */
  lemma JoinSplits<T>(m: Matrix<T>, show: T -> string, horizontal: char, vertical: char)
    requires RowsCount(m) > 0 && ColumnsCount(m) > 0
    requires forall i, c :: 0 <= i < |m| && 0 <= c < ColumnsCount(m) ==>
      horizontal !in CellText(m, show, i, c) && vertical !in CellText(m, show, i, c)
    requires horizontal != vertical
    ensures SplitOn(JoinText(m, show, [horizontal], [vertical]), vertical) == Lines(m, show, [horizontal])
    ensures forall i :: 0 <= i < |m| ==> SplitOn(Lines(m, show, [horizontal])[i], horizontal) == RowTexts(m, show, i)
  {
    var lines := Lines(m, show, [horizontal]);
    forall i | 0 <= i < |m|
      ensures vertical !in lines[i]
      ensures SplitOn(lines[i], horizontal) == RowTexts(m, show, i)
    {
      JoinAvoids(RowTexts(m, show, i), [horizontal], vertical);
      SplitJoin(RowTexts(m, show, i), horizontal);
    }
    SplitJoin(lines, vertical);
  }

  /** Joining texts without `c` by a separator without `c` gives a text without `c`. */
  lemma {:induction false} JoinAvoids(parts: seq<string>, separator: string, c: char)
    requires c !in separator && forall k :: 0 <= k < |parts| ==> c !in parts[k]
    ensures c !in JoinWith(parts, separator)
  {
    if |parts| > 1 {
      JoinAvoids(parts[1..], separator, c);
    }
  }

}
