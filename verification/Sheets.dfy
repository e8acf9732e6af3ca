/** Cell ranges with a marker for the last index, and the in-place edits of a sheet. */
module Sheets {
  import opened Deletion

  // ---------------------------------------------------------------------------
  // Addressing
  // ---------------------------------------------------------------------------

  /** A counted index, or the marker that stands for the last one. */
  datatype Index = At(i: int) | Last

  datatype Bounds = Bounds(lastColumn: int, lastRow: int)

  datatype CellIndex = CellIndex(column: Index, row: Index) {
    predicate HasRelativeIndexes() { column.Last? || row.Last? }

    function Resolve(bounds: Bounds): CellIndex {
      CellIndex(if column.Last? then At(bounds.lastColumn) else column, if row.Last? then At(bounds.lastRow) else row)
    }

    predicate IsInBounds(bounds: Bounds) {
      IsIndexInBounds(column, bounds.lastColumn) && IsIndexInBounds(row, bounds.lastRow)
    }
  }

  predicate IsIndexInBounds(index: Index, max: int) {
    max >= 0 && (index.Last? || index.i <= max)
  }

  datatype CellRange = CellRange(from: CellIndex, end: CellIndex) {
    predicate HasRelativeIndexes() { from.HasRelativeIndexes() || end.HasRelativeIndexes() }

    predicate IsInBounds(bounds: Bounds) { from.IsInBounds(bounds) && end.IsInBounds(bounds) }

    function Resolve(bounds: Bounds): CellRange { CellRange(from.Resolve(bounds), end.Resolve(bounds)) }

    predicate IsOneDimensional() { from.column == end.column || from.row == end.row }
  }

  /** Only a range that needs it is resolved. */
  function ResolveRelativeIndexes(range: CellRange, bounds: Bounds): (r: CellRange)
    ensures r == range.Resolve(bounds) && !r.HasRelativeIndexes()
  {
    if range.HasRelativeIndexes() then range.Resolve(bounds) else range
  }

  /** The marker comes after every counted index. */
  predicate AtMost(a: Index, b: Index) { b.Last? || (a.At? && a.i <= b.i) }

  /** Spanned from top-left to bottom-right, as validation demands. */
  predicate Ordered(range: CellRange) {
    AtMost(range.from.column, range.end.column) && AtMost(range.from.row, range.end.row)
  }

  /** Resolving keeps an ordered range that fits the sheet ordered and within it. */
  lemma ResolvedRangeStaysOrdered(range: CellRange, bounds: Bounds)
    requires Ordered(range) && range.IsInBounds(bounds)
    ensures var r := ResolveRelativeIndexes(range, bounds);
            Ordered(r) && r.IsInBounds(bounds) && !r.HasRelativeIndexes()
  {}

  // ---------------------------------------------------------------------------
  // Row-major enumeration
  // ---------------------------------------------------------------------------

  function Width(range: CellRange): int
    requires !range.HasRelativeIndexes()
  {
    range.end.column.i - range.from.column.i + 1
  }

  function Height(range: CellRange): int
    requires !range.HasRelativeIndexes()
  {
    range.end.row.i - range.from.row.i + 1
  }

  predicate Absolute(c: CellIndex) { c.column.At? && c.row.At? }

  predicate Inside(range: CellRange, c: CellIndex)
    requires !range.HasRelativeIndexes()
  {
    && Absolute(c)
    && range.from.column.i <= c.column.i <= range.end.column.i
    && range.from.row.i <= c.row.i <= range.end.row.i
  }

  /** Earlier row, or earlier in the same row. */
  predicate RowMajorBefore(a: CellIndex, b: CellIndex) {
    Absolute(a) && Absolute(b) && (a.row.i < b.row.i || (a.row.i == b.row.i && a.column.i < b.column.i))
  }

  /** All cells of the rectangle in reading order, and so each of them once. */
  ghost predicate RowMajor(range: CellRange, cells: seq<CellIndex>)
    requires !range.HasRelativeIndexes()
  {
    && (forall c :: c in cells <==> Inside(range, c))
    && (forall i, j :: 0 <= i < j < |cells| ==> RowMajorBefore(cells[i], cells[j]))
  }

  /** The cells of the rectangle that come before (row, column). */
  ghost predicate EnumeratedUpTo(range: CellRange, cells: seq<CellIndex>, row: int, column: int)
    requires !range.HasRelativeIndexes()
  {
    && (forall c :: c in cells <==> Inside(range, c) && (c.row.i < row || (c.row.i == row && c.column.i < column)))
    && (forall i, j :: 0 <= i < j < |cells| ==> RowMajorBefore(cells[i], cells[j]))
  }

  lemma EnumerateOneMore(range: CellRange, cells: seq<CellIndex>, row: int, column: int)
    requires !range.HasRelativeIndexes() && EnumeratedUpTo(range, cells, row, column)
    requires Inside(range, CellIndex(At(column), At(row)))
    ensures EnumeratedUpTo(range, cells + [CellIndex(At(column), At(row))], row, column + 1)
  {
    var next := CellIndex(At(column), At(row));
    forall c | Inside(range, c) && c.row.i == row && c.column.i == column ensures c == next {}
    forall i | 0 <= i < |cells| ensures RowMajorBefore(cells[i], next) {
      assert cells[i] in cells;
    }
  }

  method EnumerateCellIndexes(range: CellRange, bounds: Bounds) returns (result: seq<CellIndex>)
    requires Ordered(range.Resolve(bounds))
    ensures RowMajor(range.Resolve(bounds), result)
    ensures |result| == Height(range.Resolve(bounds)) * Width(range.Resolve(bounds))
  {
    var resolved := ResolveRelativeIndexes(range, bounds);
    ghost var w := Width(resolved);
    result := [];
    var row := resolved.from.row.i;
    while row <= resolved.end.row.i
      invariant resolved.from.row.i <= row <= resolved.end.row.i + 1
      invariant |result| == (row - resolved.from.row.i) * w
      invariant EnumeratedUpTo(resolved, result, row, resolved.from.column.i)
    {
      var column := resolved.from.column.i;
      while column <= resolved.end.column.i
        invariant resolved.from.column.i <= column <= resolved.end.column.i + 1
        invariant |result| == (row - resolved.from.row.i) * w + (column - resolved.from.column.i)
        invariant EnumeratedUpTo(resolved, result, row, column)
      {
        EnumerateOneMore(resolved, result, row, column);
        result := result + [CellIndex(At(column), At(row))];
        column := column + 1;
      }
      assert (row - resolved.from.row.i) * w + w == (row + 1 - resolved.from.row.i) * w;
      row := row + 1;
    }
  }

  /** Reading order leaves no choice: two enumerations of one range are the same. */
  lemma {:induction false} RowMajorIsUnique(range: CellRange, cells: seq<CellIndex>, others: seq<CellIndex>, k: nat)
    requires !range.HasRelativeIndexes() && RowMajor(range, cells) && RowMajor(range, others)
    requires k <= |cells|
    ensures k <= |others| && cells[..k] == others[..k]
    decreases k
  {
    if k > 0 {
      RowMajorIsUnique(range, cells, others, k - 1);
      var c := cells[k - 1];
      assert c in others;
      var j :| 0 <= j < |others| && others[j] == c;
      assert j >= k - 1 by {
        assert forall i :: 0 <= i < k - 1 ==> cells[..k - 1][i] == cells[i] && others[..k - 1][i] == others[i];
      }
      var d := others[k - 1];
      assert d in cells;
      var i :| 0 <= i < |cells| && cells[i] == d;
      assert i >= k - 1 by {
        assert forall l :: 0 <= l < k - 1 ==> cells[..k - 1][l] == cells[l] && others[..k - 1][l] == others[l];
      }
      assert j == k - 1 || RowMajorBefore(d, c);
      assert i == k - 1 || RowMajorBefore(c, d);
      assert cells[..k] == cells[..k - 1] + [c] && others[..k] == others[..k - 1] + [d];
    }
  }

  // ---------------------------------------------------------------------------
  // The sheet
  // ---------------------------------------------------------------------------

  /** Writing past the end of a short row leaves holes before the written cell. */
  datatype Content = Hole | Text(text: string)

  type Row = seq<Content>

  function LongestRow(data: seq<Row>): (r: nat)
    ensures forall i :: 0 <= i < |data| ==> |data[i]| <= r
    ensures |data| > 0 ==> exists i :: 0 <= i < |data| && |data[i]| == r
  {
    if |data| == 0 then 0
    else
      var n := |data| - 1;
      var longest := LongestRow(data[..n]);
      if |data[n]| > longest then |data[n]|
      else
        assert n == 0 || exists i :: 0 <= i < n && |data[..n][i]| == longest;
        assert n > 0 ==> exists i :: 0 <= i < |data| && |data[i]| == longest by {
          if n > 0 {
            var i :| 0 <= i < n && |data[..n][i]| == longest;
            assert data[i] == data[..n][i];
          }
        }
        longest
  }

  function Pad(row: Row, length: nat): (r: Row)
    ensures |r| == if |row| < length then length else |row|
    ensures forall i :: 0 <= i < |r| ==> r[i] == if i < |row| then row[i] else Hole
  {
    if |row| < length then row + seq(length - |row|, _ => Hole) else row
  }

  /** What stands at a position; positions past the end of a row or sheet are holes. */
  function Read(data: seq<Row>, row: int, column: int): Content {
    if 0 <= row < |data| && 0 <= column < |data[row]| then data[row][column] else Hole
  }

  function Slice(row: Row, start: nat, end: nat): (r: Row)
    requires start <= end
    ensures |r| <= end - start
    ensures forall i :: 0 <= i < |r| ==> start + i < |row| && r[i] == row[start + i]
    ensures |r| == if |row| <= start then 0 else if |row| <= end then |row| - start else end - start
  {
    if |row| <= start then [] else if |row| <= end then row[start..] else row[start..end]
  }

  class Sheet {
    var data: seq<Row>
    var numberOfRows: int
    var numberOfColumns: int

    predicate Valid()
      reads this
    {
      && numberOfRows == |data| && numberOfColumns >= 0
      && forall i :: 0 <= i < |data| ==> |data[i]| <= numberOfColumns
    }

    function GetBounds(): Bounds
      reads this
    {
      Bounds(numberOfColumns - 1, numberOfRows - 1)
    }

    constructor (data: seq<Row>)
      ensures Valid() && this.data == data && numberOfColumns == LongestRow(data)
    {
      this.data := data;
      numberOfRows := |data|;
      numberOfColumns := LongestRow(data);
    }

    method DeleteRow(row: CellRange)
      requires Valid() && row.IsInBounds(GetBounds())
      modifies this
      ensures Valid()
      ensures data == SpliceOne(old(data), ResolveRelativeIndexes(row, old(GetBounds())).from.row.i)
      ensures numberOfRows == old(numberOfRows) - 1 && numberOfColumns == old(numberOfColumns)
    {
      var resolved := ResolveRelativeIndexes(row, GetBounds());
      data := SpliceOne(data, resolved.from.row.i);
      numberOfRows := numberOfRows - 1;
    }

    method DeleteColumn(column: CellRange)
      requires Valid() && column.IsInBounds(GetBounds())
      modifies this
      ensures Valid() && numberOfRows == old(numberOfRows) && numberOfColumns == old(numberOfColumns) - 1
      ensures forall i :: 0 <= i < |data| ==>
                data[i] == SpliceOne(old(data)[i], ResolveRelativeIndexes(column, old(GetBounds())).from.column.i)
    {
      var resolved := ResolveRelativeIndexes(column, GetBounds());
      var rows := data;
      data := seq(|rows|, i requires 0 <= i < |rows| => SpliceOne(rows[i], resolved.from.column.i));
      numberOfColumns := numberOfColumns - 1;
    }

    /**
     * Changes the one cell, whatever the length of its row. A row before the first passes the check of
     * the bounds, but there is no such row to write to: that throws. Before the first column there is
     * no cell to change.
     */
    method WriteCell(cell: CellIndex, content: string) returns (ok: bool)
      requires Valid() && Absolute(cell) && cell.IsInBounds(GetBounds())
      modifies this
      ensures ok <==> cell.row.i >= 0
      ensures Valid() && numberOfRows == old(numberOfRows) && numberOfColumns == old(numberOfColumns)
      ensures forall r, c :: Read(data, r, c) ==
                if r == cell.row.i && c == cell.column.i && r >= 0 && c >= 0 then Text(content)
                else Read(old(data), r, c)
    {
      var r, c := cell.row.i, cell.column.i;
      if r < 0 { return false; }
      if c >= 0 {
        var row := Pad(data[r], c + 1);
        data := data[r := row[c := Text(content)]];
      }
      return true;
    }

    /** Keeps the selected rectangle; a range starting before the first row breaks the row count. */
    method SelectRange(range: CellRange)
      requires Valid() && range.IsInBounds(GetBounds())
      requires Ordered(range.Resolve(GetBounds())) && range.Resolve(GetBounds()).from.column.i >= 0
      modifies this
      ensures var r := range.Resolve(old(GetBounds()));
              && numberOfColumns == Width(r) && numberOfRows == Height(r)
              && (Valid() <==> r.from.row.i >= 0)
              && (r.from.row.i >= 0 ==>
                    forall y, x :: 0 <= y < Height(r) && 0 <= x < Width(r) ==>
                      Read(data, y, x) == Read(old(data), r.from.row.i + y, r.from.column.i + x))
    {
      var resolved := ResolveRelativeIndexes(range, GetBounds());
      ghost var before := data;
      var first, last := resolved.from.row.i, resolved.end.row.i;
      var left, right := resolved.from.column.i, resolved.end.column.i;
      var selected: seq<Row> := [];
      for rowIndex := 0 to |data|
        invariant data == before
        invariant |selected| == (if rowIndex <= last then rowIndex else if last < 0 then 0 else last + 1)
                              - (if first < 0 then 0 else if rowIndex < first then rowIndex else first)
        invariant forall k :: 0 <= k < |selected| ==>
                    selected[k] == Slice(data[(if first < 0 then 0 else first) + k], left, right + 1)
      {
        if rowIndex < first || last < rowIndex { continue; }
        selected := selected + [Slice(data[rowIndex], left, right + 1)];
      }
      data := selected;
      numberOfColumns := right - left + 1;
      numberOfRows := last - first + 1;
    }
  }
}
