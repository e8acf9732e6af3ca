/**
 * The blocks that edit sheets: deleting rows, deleting columns, writing cells. Each works on
 * a clone of its input, and a clone counts its columns anew: it may have fewer than its
 * original, whose count can exceed the length of its longest row.
 */
module SheetExecutors {
  import opened Common
  import opened Deletion
  import opened Sheets

  // ---------------------------------------------------------------------------
  // The order in which rows or columns are deleted
  // ---------------------------------------------------------------------------

  /** The reduction that drops duplicates; it looks into the result at the index of the input. */
  function RemoveDuplicates(indexes: seq<int>): seq<int> {
    if |indexes| == 0 then []
    else
      var index := |indexes| - 1;
      var previous := RemoveDuplicates(indexes[..index]);
      if 0 < index <= |previous| && previous[index - 1] == indexes[index] then previous
      else previous + [indexes[index]]
  }

  function DeletionOrder(indexes: seq<int>): seq<int> {
    Reverse(RemoveDuplicates(Sort(indexes)))
  }

  /** On a sorted list it drops one duplicate at most. */
  lemma {:induction false} OnlyOneDuplicateIsRemoved(indexes: seq<int>)
    requires Ascending(indexes)
    ensures Ascending(RemoveDuplicates(indexes))
    ensures forall x :: x in RemoveDuplicates(indexes) <==> x in indexes
    ensures |RemoveDuplicates(indexes)| == if Distinct(indexes) then |indexes| else |indexes| - 1
    decreases |indexes|
  {
    if |indexes| > 0 {
      var n := |indexes| - 1;
      OnlyOneDuplicateIsRemoved(indexes[..n]);
      SplitLast(indexes);
      LastDuplicates(indexes);
      var previous := RemoveDuplicates(indexes[..n]);
      forall i | 0 <= i < |previous| ensures previous[i] <= indexes[n] {
        assert previous[i] in previous && previous[i] in indexes[..n];
      }
      if Distinct(indexes[..n]) {
        SameWhenDistinct(indexes[..n]);
      }
    }
  }

  /** In a sorted list, the last element repeats an earlier one exactly if it repeats its neighbour. */
  lemma LastDuplicates(indexes: seq<int>)
    requires Ascending(indexes) && |indexes| > 0
    ensures var n := |indexes| - 1;
            Distinct(indexes) <==> Distinct(indexes[..n]) && (n > 0 ==> indexes[n - 1] != indexes[n])
  {
    var n := |indexes| - 1;
    if Distinct(indexes[..n]) && (n > 0 ==> indexes[n - 1] != indexes[n]) {
      forall i, j | 0 <= i < j < |indexes| ensures indexes[i] != indexes[j] {
        if j == n {
          assert indexes[i] <= indexes[n - 1] <= indexes[n];
        } else {
          assert indexes[..n][i] != indexes[..n][j];
        }
      }
    }
  }

  lemma {:induction false} SameWhenDistinct(indexes: seq<int>)
    requires Ascending(indexes) && Distinct(indexes)
    ensures RemoveDuplicates(indexes) == indexes
    decreases |indexes|
  {
    if |indexes| > 0 {
      SameWhenDistinct(indexes[..|indexes| - 1]);
    }
  }

  /** Once a duplicate has been dropped, the result is too short for the lookup, and every other index is kept. */
  lemma NoneAfterTheFirst(indexes: seq<int>, n: nat)
    requires n + 1 == |indexes| && |RemoveDuplicates(indexes[..n])| < n
    ensures RemoveDuplicates(indexes) == RemoveDuplicates(indexes[..n]) + [indexes[n]]
  {}

  /** It is the first duplicate that is dropped. */
  lemma {:induction false} FirstDuplicateIsRemoved(indexes: seq<int>, k: nat)
    requires Ascending(indexes) && 0 < k < |indexes| && indexes[k - 1] == indexes[k]
    requires forall j :: 0 < j < k ==> indexes[j - 1] != indexes[j]
    ensures RemoveDuplicates(indexes) == indexes[..k] + indexes[k + 1..]
    decreases |indexes|
  {
    var n := |indexes| - 1;
    if n == k {
      StrictIsDistinct(indexes[..k]);
      SameWhenDistinct(indexes[..k]);
    } else {
      FirstDuplicateIsRemoved(indexes[..n], k);
      NoneAfterTheFirst(indexes, n);
      RestWithoutLast(indexes, k);
    }
  }

  lemma RestWithoutLast(indexes: seq<int>, k: nat)
    requires 0 < k < |indexes| - 1
    ensures var n := |indexes| - 1;
            indexes[..n][..k] + indexes[..n][k + 1..] + [indexes[n]] == indexes[..k] + indexes[k + 1..]
  {}

  lemma {:induction false} StrictIsDistinct(indexes: seq<int>)
    requires Ascending(indexes) && forall j :: 0 < j < |indexes| ==> indexes[j - 1] != indexes[j]
    ensures Distinct(indexes)
    decreases |indexes|
  {
    if |indexes| > 0 {
      StrictIsDistinct(indexes[..|indexes| - 1]);
      LastDuplicates(indexes);
    }
  }

  lemma SameMembersSamePositions(s: seq<int>, t: seq<int>)
    requires forall x :: x in s <==> x in t
    ensures Elements(s) == Elements(t)
  {
    assert forall x :: x in Elements(s) <==> x in Elements(t);
  }

  /** It is strictly descending exactly if at most one of the named indexes was redundant. */
  lemma DeletionOrderDescendsIff(indexes: seq<int>)
    ensures var order := DeletionOrder(indexes);
            && Elements(order) == Elements(indexes)
            && (Descending(order) <==> |indexes| <= |Elements(indexes)| + 1)
            && (Descending(order) <==> |order| == |Elements(indexes)|)
  {
    var sorted := Sort(indexes);
    var kept := RemoveDuplicates(sorted);
    SortIsAscending(indexes);
    SortKeepsMembers(indexes);
    OnlyOneDuplicateIsRemoved(sorted);
    SameMembersSamePositions(sorted, indexes);
    SameMembersSamePositions(kept, sorted);
    SameMembersSamePositions(Reverse(kept), kept);
    ElementsOfDistinct(sorted);
    ElementsOfDistinct(kept);
    ReverseDescends(kept);
  }

  lemma ReverseDescends(s: seq<int>)
    requires Ascending(s)
    ensures Descending(Reverse(s)) <==> Distinct(s)
  {
    var r := Reverse(s);
    if Descending(r) {
      forall i, j | 0 <= i < j < |s| ensures s[i] != s[j] {
        assert r[|s| - 1 - i] == s[i] && r[|s| - 1 - j] == s[j];
      }
    }
  }

  // ---------------------------------------------------------------------------
  // Rows
  // ---------------------------------------------------------------------------

  /** Deletes row after row; None if a row is out of bounds when its turn comes. */
  function RowsInOrder(data: seq<Row>, fits: bool, order: seq<int>): Option<seq<Row>>
    decreases |order|
  {
    if |order| == 0 then Some(data)
    else if !fits || |data| == 0 || order[0] >= |data| then None
    else RowsInOrder(SpliceOne(data, order[0]), fits, order[1..])
  }

  lemma {:induction false} RowsInOrderCount(data: seq<Row>, fits: bool, order: seq<int>)
    requires RowsInOrder(data, fits, order).Some?
    ensures |RowsInOrder(data, fits, order).value| == |data| - |order|
    decreases |order|
  {
    if |order| > 0 { RowsInOrderCount(SpliceOne(data, order[0]), fits, order[1..]); }
  }

  /** At its turn, when i of n rows or columns have been deleted, this one is out of bounds, or nothing fits. */
  predicate TurnFails(n: int, fits: bool, order: seq<int>, i: nat) {
    i < |order| && (!fits || n <= i || order[i] >= n - i)
  }

  lemma TurnsOfRest(n: int, fits: bool, order: seq<int>, m: int, rest: seq<int>)
    requires |order| > 0 && rest == order[1..] && m == n - 1
    requires !TurnFails(n, fits, order, 0)
    ensures (exists i: nat :: TurnFails(n, fits, order, i)) <==> exists i: nat :: TurnFails(m, fits, rest, i)
  {
    if i: nat :| TurnFails(n, fits, order, i) { assert TurnFails(m, fits, rest, i - 1); }
    if i: nat :| TurnFails(m, fits, rest, i) { assert TurnFails(n, fits, order, i + 1); }
  }

  /** Deleting rows throws exactly if one of them fails at its turn. */
  lemma {:induction false} RowsThrowIff(data: seq<Row>, fits: bool, order: seq<int>)
    ensures RowsInOrder(data, fits, order).None? <==> exists i: nat :: TurnFails(|data|, fits, order, i)
    decreases |order|
  {
    if |order| > 0 && !TurnFails(|data|, fits, order, 0) {
      RowsThrowIff(SpliceOne(data, order[0]), fits, order[1..]);
      TurnsOfRest(|data|, fits, order, |data| - 1, order[1..]);
    }
  }

  lemma {:induction false} DescendingRowsInOrder(data: seq<Row>, order: seq<int>)
    requires Descending(order) && forall i :: 0 <= i < |order| ==> 0 <= order[i] < |data|
    ensures RowsInOrder(data, true, order) == Some(SpliceAll(data, order))
    decreases |order|
  {
    if |order| > 0 { DescendingRowsInOrder(SpliceOne(data, order[0]), order[1..]); }
  }

  /**
   * Exactly the named rows are deleted if and only if rows are numbered from 1, at most one
   * of the given row numbers is redundant, and the sheet has no columns beyond its longest row.
   */
  lemma RowsAreDeletedIff(data: seq<Row>, fits: bool, rows: seq<int>)
    requires forall i :: 0 <= i < |rows| ==> rows[i] < |data|
    requires |rows| > 0 ==> |data| > 0
    ensures RowsInOrder(data, fits, DeletionOrder(rows)) == Some(Without(data, Elements(rows)))
       <==> |rows| == 0 || (fits && (forall i :: 0 <= i < |rows| ==> rows[i] >= 0) && |rows| <= |Elements(rows)| + 1)
  {
    var order, named := DeletionOrder(rows), Elements(rows);
    var hit := set i | 0 <= i < |data| && i in named;
    DeletionOrderDescendsIff(rows);
    WithoutCount(data, named);
    SubsetCount(hit, named);
    if |rows| == 0 {
      assert named == {};
      assert |order| == 0;
      WithoutKeepsTail(data, {}, 0);
      assert data[0..] == data && data[..0] == [];
      assert Without(data, named) == data;
      return;
    }
    assert |order| > 0 by { assert rows[0] in Elements(order); }
    if RowsInOrder(data, fits, order) == Some(Without(data, named)) {
      RowsInOrderCount(data, fits, order);
      ElementsOfDistinct(order);
      forall i | 0 <= i < |rows| ensures rows[i] >= 0 {
        assert rows[i] in hit;
      }
    }
    if fits && (forall i :: 0 <= i < |rows| ==> rows[i] >= 0) && |rows| <= |named| + 1 {
      forall i | 0 <= i < |order| ensures 0 <= order[i] < |data| {
        assert order[i] in Elements(order);
      }
      DescendingRowsInOrder(data, order);
      DescendingSplicesRemove(data, order);
    }
  }

  lemma SortedZeroes()
    ensures Sort([0, 0, 0]) == [0, 0, 0]
  {
    assert [0, 0, 0][1..] == [0, 0] && [0, 0][1..] == [0] && [0][1..] == [];
    assert Sort([0]) == [0];
    assert Sort([0, 0]) == [0, 0];
  }

  lemma TwoZeroesRemain()
    ensures RemoveDuplicates([0, 0, 0]) == [0, 0]
  {
    assert [0, 0, 0][..2] == [0, 0] && [0, 0][..1] == [0] && [0][..0] == [];
    assert RemoveDuplicates([0]) == [0];
    assert RemoveDuplicates([0, 0]) == [0];
  }

  lemma ThreeZeroes()
    ensures DeletionOrder([0, 0, 0]) == [0, 0]
  {
    SortedZeroes();
    TwoZeroesRemain();
    assert Reverse([0, 0])[0] == 0 && Reverse([0, 0])[1] == 0;
  }

  /** Row 1 named three times: the second row is deleted as well. */
  lemma NamedThriceDeletesTwo(first: Row, second: Row, third: Row)
    ensures var data := [first, second, third];
            && RowsInOrder(data, true, DeletionOrder([0, 0, 0])) == Some([third])
            && Without(data, Elements([0, 0, 0])) == [second, third]
  {
    var data := [first, second, third];
    ThreeZeroes();
    assert SpliceOne(data, 0) == [second, third] && SpliceOne([second, third], 0) == [third];
    assert [0, 0][1..] == [0] && [0][1..] == [];
    assert RowsInOrder([third], true, []) == Some([third]);
    assert RowsInOrder([second, third], true, [0]) == Some([third]);
    WithoutKeepsTail(data, Elements([0, 0, 0]), 1);
    assert 0 in Elements([0, 0, 0]);
    assert data[..1] == [first] && data[1..] == [second, third] && [first][..0] == [];
    assert Without([first], Elements([0, 0, 0])) == Without([first][..0], Elements([0, 0, 0]));
  }

  /** The outcomes of a block: a sheet, an error for the user, or a failed assertion or type error. */
  datatype EditResult = Done(sheet: Sheet) | NotFound | Thrown

  /** A row or column to delete, which may be spelled as a range literal from its first to its last cell. */
  datatype Line = Line(index: Index, asRange: bool)

  function ResolveAll(lines: seq<Line>, last: int): (r: seq<int>)
    ensures |r| == |lines|
    ensures forall i :: 0 <= i < |r| ==> r[i] == if lines[i].index.Last? then last else lines[i].index.i
  {
    seq(|lines|, i requires 0 <= i < |lines| => if lines[i].index.Last? then last else lines[i].index.i)
  }

  /** Resolving its end makes a range literal unrecognisable as a row or column, and asking for its index throws. */
  predicate SomeRange(lines: seq<Line>) { exists i :: 0 <= i < |lines| && lines[i].asRange }

  /** The first of the lines that does not exist. */
  function FirstMissing(present: int -> bool, lines: seq<int>): (r: Option<nat>)
    ensures r.None? <==> forall i :: 0 <= i < |lines| ==> present(lines[i])
    ensures r.Some? ==>
              r.value < |lines| && !present(lines[r.value]) && forall i :: 0 <= i < r.value ==> present(lines[i])
  {
    if |lines| == 0 then None
    else
      var n := |lines| - 1;
      var earlier := FirstMissing(present, lines[..n]);
      assert forall i :: 0 <= i < n ==> lines[..n][i] == lines[i];
      if earlier.Some? then earlier else if present(lines[n]) then None else Some(n)
  }

  /** What keeps lines from being deleted: one that is missing, or one whose index cannot be told. */
  datatype Problem = Missing | NoIndex

  /** The first missing line decides; its index is needed for the message. Otherwise the index of every line is. */
  function ProblemOf(lines: seq<Line>, resolved: seq<int>, present: int -> bool): Option<Problem>
    requires |resolved| == |lines|
  {
    var missing := FirstMissing(present, resolved);
    if missing.Some? then Some(if lines[missing.value].asRange then NoIndex else Missing)
    else if SomeRange(lines) then Some(NoIndex)
    else None
  }

  method CheckLines(lines: seq<Line>, resolved: seq<int>, present: int -> bool) returns (r: Option<Problem>)
    requires |resolved| == |lines|
    ensures r == ProblemOf(lines, resolved, present)
  {
    for i := 0 to |resolved|
      invariant forall k :: 0 <= k < i ==> present(resolved[k])
    {
      if !present(resolved[i]) {
        assert FirstMissing(present, resolved) == Some(i);
        return Some(if lines[i].asRange then NoIndex else Missing);
      }
    }
    return if SomeRange(lines) then Some(NoIndex) else None;
  }

  function RowRange(row: int, lastColumn: int): CellRange {
    CellRange(CellIndex(At(0), At(row)), CellIndex(At(lastColumn), At(row)))
  }

  predicate RowExists(row: int, bounds: Bounds) { RowRange(row, bounds.lastColumn).IsInBounds(bounds) }

  function RowsOf(bounds: Bounds): int -> bool { row => RowExists(row, bounds) }

  /** A row exists exactly if the sheet has cells and the row is not beyond its last one. */
  lemma RowExistsIff(row: int, columns: nat, rows: nat)
    ensures RowExists(row, Bounds(columns - 1, rows - 1)) <==> columns > 0 && rows > 0 && row < rows
  {}

  /** The first missing line is reported, or makes the block throw if it is spelled as a range. */
  lemma ProblemIff(lines: seq<Line>, resolved: seq<int>, present: int -> bool)
    requires |resolved| == |lines|
    ensures ProblemOf(lines, resolved, present) == Some(Missing) <==>
            exists i :: 0 <= i < |lines| && !present(resolved[i]) && !lines[i].asRange
              && forall j :: 0 <= j < i ==> present(resolved[j])
    ensures ProblemOf(lines, resolved, present).None? <==>
            forall i :: 0 <= i < |lines| ==> present(resolved[i]) && !lines[i].asRange
  {}

  method DeleteRowsOf(input: Sheet, order: seq<int>) returns (r: EditResult)
    requires input.Valid()
    ensures !r.NotFound?
    ensures match RowsInOrder(input.data, 0 < input.numberOfColumns == LongestRow(input.data), order)
            case None => r.Thrown?
            case Some(d) => r.Done? && fresh(r.sheet) && r.sheet.Valid() && r.sheet.data == d
  {
    LongestRowAtMost(input.data, input.numberOfColumns);
    ghost var fits := 0 < input.numberOfColumns == LongestRow(input.data);
    var resultingSheet := new Sheet(input.data);
    for i := 0 to |order|
      invariant resultingSheet.Valid() && fresh(resultingSheet)
      invariant resultingSheet.numberOfColumns == LongestRow(input.data)
      invariant RowsInOrder(input.data, fits, order) == RowsInOrder(resultingSheet.data, fits, order[i..])
    {
      var row := RowRange(order[i], input.numberOfColumns - 1);
      if !row.IsInBounds(resultingSheet.GetBounds()) { return Thrown; }
      resultingSheet.DeleteRow(row);
    }
    return Done(resultingSheet);
  }

  method DeleteRows(input: Sheet, relativeRows: seq<Line>) returns (r: EditResult)
    requires input.Valid()
    ensures var rows, bounds := ResolveAll(relativeRows, input.numberOfRows - 1), input.GetBounds();
            var fits := 0 < input.numberOfColumns == LongestRow(input.data);
            match ProblemOf(relativeRows, rows, RowsOf(bounds))
            case Some(Missing) => r.NotFound?
            case Some(NoIndex) => r.Thrown?
            case None =>
              match RowsInOrder(input.data, fits, DeletionOrder(rows))
              case None => r.Thrown?
              case Some(d) => r.Done? && fresh(r.sheet) && r.sheet.Valid() && r.sheet.data == d
  {
    var absoluteRows := ResolveAll(relativeRows, input.numberOfRows - 1);
    var bounds := input.GetBounds();
    var problem := CheckLines(relativeRows, absoluteRows, RowsOf(bounds));
    if problem.Some? { return if problem.value.Missing? then NotFound else Thrown; }
    r := DeleteRowsOf(input, DeletionOrder(absoluteRows));
  }

  lemma LongestRowAtMost(data: seq<Row>, n: nat)
    requires forall i :: 0 <= i < |data| ==> |data[i]| <= n
    ensures LongestRow(data) <= n
  {}

  // ---------------------------------------------------------------------------
  // Columns
  // ---------------------------------------------------------------------------

  function SpliceRows(data: seq<Row>, column: int): (r: seq<Row>)
    ensures |r| == |data| && forall i :: 0 <= i < |r| ==> r[i] == SpliceOne(data[i], column)
  {
    seq(|data|, i requires 0 <= i < |data| => SpliceOne(data[i], column))
  }

  lemma SplicedRows(data: seq<Row>, column: int, after: seq<Row>)
    requires |after| == |data| && forall i :: 0 <= i < |after| ==> after[i] == SpliceOne(data[i], column)
    ensures after == SpliceRows(data, column)
  {}

  /** Deletes column after column of a sheet with `columns` columns; None if one is out of bounds. */
  function ColumnsInOrder(data: seq<Row>, columns: int, order: seq<int>): Option<(seq<Row>, int)>
    decreases |order|
  {
    if |order| == 0 then Some((data, columns))
    else if |data| == 0 || columns <= 0 || order[0] >= columns then None
    else ColumnsInOrder(SpliceRows(data, order[0]), columns - 1, order[1..])
  }

  lemma ColumnsInOrderStep(data: seq<Row>, columns: int, order: seq<int>, i: nat)
    requires i < |order|
    ensures ColumnsInOrder(data, columns, order[i..])
         == if |data| == 0 || columns <= 0 || order[i] >= columns then None
            else ColumnsInOrder(SpliceRows(data, order[i]), columns - 1, order[i + 1..])
  {
    assert order[i..][1..] == order[i + 1..];
  }

  /** Deleting columns throws exactly if one of them fails at its turn; without rows any does. */
  lemma {:induction false} ColumnsThrowIff(data: seq<Row>, columns: int, order: seq<int>, fits: bool)
    requires fits == (|data| > 0)
    ensures ColumnsInOrder(data, columns, order).None? <==> exists i: nat :: TurnFails(columns, fits, order, i)
    decreases |order|
  {
    if |order| > 0 && !TurnFails(columns, fits, order, 0) {
      ColumnsThrowIff(SpliceRows(data, order[0]), columns - 1, order[1..], fits);
      TurnsOfRest(columns, fits, order, columns - 1, order[1..]);
    }
  }

  lemma {:induction false} ColumnsInOrderResult(data: seq<Row>, columns: int, order: seq<int>)
    requires ColumnsInOrder(data, columns, order).Some?
    ensures var (d, c) := ColumnsInOrder(data, columns, order).value;
            c == columns - |order| && |d| == |data| && forall i :: 0 <= i < |d| ==> d[i] == SpliceAll(data[i], order)
    decreases |order|
  {
    if |order| > 0 { ColumnsInOrderResult(SpliceRows(data, order[0]), columns - 1, order[1..]); }
  }

  lemma {:induction false} DescendingColumnsInOrder(data: seq<Row>, columns: int, order: seq<int>)
    requires Descending(order) && forall i :: 0 <= i < |order| ==> 0 <= order[i] < columns
    requires |data| > 0
    ensures ColumnsInOrder(data, columns, order).Some?
    decreases |order|
  {
    if |order| > 0 { DescendingColumnsInOrder(SpliceRows(data, order[0]), columns - 1, order[1..]); }
  }

  ghost predicate ColumnsRemoved(data: seq<Row>, columns: int, named: set<int>, r: Option<(seq<Row>, int)>) {
    && r.Some? && r.value.1 == columns - |named| && |r.value.0| == |data|
    && forall i :: 0 <= i < |data| ==> r.value.0[i] == Without(data[i], named)
  }

  /**
   * Exactly the named columns are deleted if and only if each of them exists in the longest
   * row and at most one of the given column names is redundant.
   */
  lemma ColumnsAreDeletedIff(data: seq<Row>, columns: nat, indexes: seq<int>)
    requires |data| > 0 && forall i :: 0 <= i < |indexes| ==> indexes[i] >= 0
    ensures ColumnsRemoved(data, columns, Elements(indexes), ColumnsInOrder(data, columns, DeletionOrder(indexes)))
       <==> (forall i :: 0 <= i < |indexes| ==> indexes[i] < columns) && |indexes| <= |Elements(indexes)| + 1
  {
    var order, named := DeletionOrder(indexes), Elements(indexes);
    DeletionOrderDescendsIff(indexes);
    forall i | 0 <= i < |order| ensures 0 <= order[i] {
      assert order[i] in Elements(order);
    }
    var r := ColumnsInOrder(data, columns, order);
    if ColumnsRemoved(data, columns, named, r) {
      ColumnsInOrderResult(data, columns, order);
      forall i | 0 <= i < |indexes| ensures indexes[i] < columns {
        assert indexes[i] in Elements(order);
        var k :| 0 <= k < |order| && order[k] == indexes[i];
        assert order[k] <= order[0];
      }
    }
    if (forall i :: 0 <= i < |indexes| ==> indexes[i] < columns) && |indexes| <= |named| + 1 {
      forall i | 0 <= i < |order| ensures order[i] < columns {
        assert order[i] in Elements(order);
      }
      DescendingColumnsInOrder(data, columns, order);
      ColumnsInOrderResult(data, columns, order);
      forall i | 0 <= i < |data| ensures SpliceAll(data[i], order) == Without(data[i], named) {
        DescendingSplicesRemove(data[i], order);
      }
    }
  }

  function ColumnRange(column: int, lastRow: int): CellRange {
    CellRange(CellIndex(At(column), At(0)), CellIndex(At(column), At(lastRow)))
  }

  predicate ColumnExists(column: int, bounds: Bounds) { ColumnRange(column, bounds.lastRow).IsInBounds(bounds) }

  lemma ColumnExistsIff(column: int, columns: nat, rows: nat)
    ensures ColumnExists(column, Bounds(columns - 1, rows - 1)) <==> columns > 0 && rows > 0 && column < columns
  {}

  function ColumnsOf(bounds: Bounds): int -> bool { column => ColumnExists(column, bounds) }

  /** One deletion, or false if its assertion fails. */
  method TryDeleteColumn(sheet: Sheet, column: int, lastRow: int) returns (ok: bool)
    requires sheet.Valid() && lastRow == sheet.numberOfRows - 1
    modifies sheet
    ensures sheet.Valid() && sheet.numberOfRows == old(sheet.numberOfRows)
    ensures ok <==> |old(sheet.data)| > 0 && old(sheet.numberOfColumns) > 0 && column < old(sheet.numberOfColumns)
    ensures ok ==>
              && sheet.data == SpliceRows(old(sheet.data), column)
              && sheet.numberOfColumns == old(sheet.numberOfColumns) - 1
  {
    var range := ColumnRange(column, lastRow);
    if !range.IsInBounds(sheet.GetBounds()) { return false; }
    ghost var before := sheet.data;
    sheet.DeleteColumn(range);
    SplicedRows(before, column, sheet.data);
    return true;
  }

  /** One iteration; what deleting the columns from here on amounts to stays the same. */
  method DeleteNextColumn(sheet: Sheet, order: seq<int>, i: nat, lastRow: int) returns (ok: bool)
    requires sheet.Valid() && lastRow == sheet.numberOfRows - 1 && i < |order|
    modifies sheet
    ensures sheet.Valid() && sheet.numberOfRows == old(sheet.numberOfRows)
    ensures ColumnsInOrder(old(sheet.data), old(sheet.numberOfColumns), order[i..])
         == if ok then ColumnsInOrder(sheet.data, sheet.numberOfColumns, order[i + 1..]) else None
  {
    ghost var data, columns := sheet.data, sheet.numberOfColumns;
    ColumnsInOrderStep(data, columns, order, i);
    ok := TryDeleteColumn(sheet, order[i], lastRow);
    assert ok ==> sheet.data == SpliceRows(data, order[i]) && sheet.numberOfColumns == columns - 1;
  }

  /** The sheet that comes out of deleting columns, or the failed assertion. */
  predicate ColumnsDeleted(r: EditResult, expected: Option<(seq<Row>, int)>)
    reads if r.Done? then {r.sheet} else {}
  {
    if expected.None? then r.Thrown?
    else r.Done? && r.sheet.Valid() && r.sheet.data == expected.value.0 && r.sheet.numberOfColumns == expected.value.1
  }

  method DeleteColumnsOf(input: Sheet, order: seq<int>) returns (r: EditResult)
    requires input.Valid()
    ensures !r.NotFound?
    ensures ColumnsDeleted(r, ColumnsInOrder(input.data, LongestRow(input.data), order))
    ensures r.Done? ==> fresh(r.sheet)
  {
    var resultingSheet := new Sheet(input.data);
    ghost var expected := ColumnsInOrder(input.data, LongestRow(input.data), order);
    for i := 0 to |order|
      invariant resultingSheet.Valid() && fresh(resultingSheet) && resultingSheet.numberOfRows == input.numberOfRows
      invariant expected == ColumnsInOrder(resultingSheet.data, resultingSheet.numberOfColumns, order[i..])
    {
      var ok := DeleteNextColumn(resultingSheet, order, i, input.numberOfRows - 1);
      if !ok { return Thrown; }
    }
    return Done(resultingSheet);
  }

  /** The rest of the block: it reports the problem, or deletes the columns. */
  method DeleteUnless(problem: Option<Problem>, input: Sheet, columns: seq<int>) returns (r: EditResult)
    requires input.Valid()
    ensures match problem
            case Some(Missing) => r.NotFound?
            case Some(NoIndex) => r.Thrown?
            case None => ColumnsDeleted(r, ColumnsInOrder(input.data, LongestRow(input.data), DeletionOrder(columns)))
    ensures r.Done? ==> fresh(r.sheet)
  {
    if problem.Some? { return if problem.value.Missing? then NotFound else Thrown; }
    r := DeleteColumnsOf(input, DeletionOrder(columns));
  }

  method DeleteColumns(input: Sheet, relativeColumns: seq<Line>) returns (r: EditResult)
    requires input.Valid()
    ensures var columns, bounds := ResolveAll(relativeColumns, input.numberOfColumns - 1), input.GetBounds();
            match ProblemOf(relativeColumns, columns, ColumnsOf(bounds))
            case Some(Missing) => r.NotFound?
            case Some(NoIndex) => r.Thrown?
            case None => ColumnsDeleted(r, ColumnsInOrder(input.data, LongestRow(input.data), DeletionOrder(columns)))
    ensures r.Done? ==> fresh(r.sheet)
  {
    var absoluteColumns := ResolveAll(relativeColumns, input.numberOfColumns - 1);
    var bounds := input.GetBounds();
    var problem := CheckLines(relativeColumns, absoluteColumns, ColumnsOf(bounds));
    r := DeleteUnless(problem, input, absoluteColumns);
  }

  // ---------------------------------------------------------------------------
  // Writing cells
  // ---------------------------------------------------------------------------

  /** The first n cells hold the values, everything else is as before. */
  ghost predicate CellsWritten(before: seq<Row>, after: seq<Row>, cells: seq<CellIndex>, values: seq<string>, n: nat)
    requires n <= |cells| && n <= |values|
  {
    && (forall i :: 0 <= i < n ==>
          Absolute(cells[i]) && Read(after, cells[i].row.i, cells[i].column.i) == Text(values[i]))
    && (forall r, c :: CellIndex(At(c), At(r)) !in cells[..n] ==> Read(after, r, c) == Read(before, r, c))
  }

  /** Writing to the cell throws: it lies beyond the longest row, or before the first row. */
  predicate Unwritable(data: seq<Row>, cell: CellIndex)
    requires Absolute(cell)
  {
    cell.row.i < 0 || cell.column.i >= LongestRow(data)
  }

  predicate SomeUnwritable(data: seq<Row>, cells: seq<CellIndex>, n: nat)
    requires n <= |cells|
  {
    exists i :: 0 <= i < n && Absolute(cells[i]) && Unwritable(data, cells[i])
  }

  method WriteCellsOf(input: Sheet, cells: seq<CellIndex>, writeValues: seq<string>, n: nat) returns (r: EditResult)
    requires input.Valid() && n <= |cells| && n <= |writeValues|
    requires forall i :: 0 <= i < |cells| ==>
               Absolute(cells[i]) && cells[i].row.i < |input.data| && cells[i].column.i >= 0
    requires forall i, j :: 0 <= i < j < |cells| ==> RowMajorBefore(cells[i], cells[j])
    requires |cells| > 0 ==> |input.data| > 0
    ensures !r.NotFound?
    ensures r.Thrown? <==> SomeUnwritable(input.data, cells, n)
    ensures r.Done? ==> fresh(r.sheet) && r.sheet.Valid() && r.sheet.numberOfRows == input.numberOfRows
    ensures r.Done? ==> CellsWritten(input.data, r.sheet.data, cells, writeValues, n)
  {
    var resultingSheet := new Sheet(input.data);
    for i := 0 to n
      invariant resultingSheet.Valid() && fresh(resultingSheet) && resultingSheet.numberOfRows == input.numberOfRows
      invariant resultingSheet.numberOfColumns == LongestRow(input.data)
      invariant !SomeUnwritable(input.data, cells, i)
      invariant CellsWritten(input.data, resultingSheet.data, cells, writeValues, i)
    {
      if !cells[i].IsInBounds(resultingSheet.GetBounds()) { return Thrown; }
      ghost var before := resultingSheet.data;
      var ok := resultingSheet.WriteCell(cells[i], writeValues[i]);
      if !ok { return Thrown; }
      WriteOneMore(input.data, before, resultingSheet.data, cells, writeValues, i);
    }
    return Done(resultingSheet);
  }

  /** Writing throws exactly if one of the cells to be written lies beyond the longest row or before the first row. */
  method WriteCells(input: Sheet, range: CellRange, writeValues: seq<string>)
    returns (r: EditResult, ghost cells: seq<CellIndex>)
    requires input.Valid() && range.IsOneDimensional() && Ordered(range)
    requires range.from.column.At? ==> range.from.column.i >= 0
    ensures r.NotFound? <==> !range.IsInBounds(input.GetBounds())
    ensures !r.NotFound? ==> RowMajor(range.Resolve(input.GetBounds()), cells)
    ensures var n := if |writeValues| < |cells| then |writeValues| else |cells|;
            && (r.Thrown? <==> !r.NotFound? && SomeUnwritable(input.data, cells, n))
            && (r.Done? ==> fresh(r.sheet) && r.sheet.Valid() && r.sheet.numberOfRows == input.numberOfRows)
            && (r.Done? ==> CellsWritten(input.data, r.sheet.data, cells, writeValues, n))
  {
    var absoluteRange := ResolveRelativeIndexes(range, input.GetBounds());
    cells := [];
    if !absoluteRange.IsInBounds(input.GetBounds()) { return NotFound, cells; }
    ResolvedRangeStaysOrdered(range, input.GetBounds());
    var cellIndexesToWrite := EnumerateCellIndexes(range, input.GetBounds());
    cells := cellIndexesToWrite;
    forall i | 0 <= i < |cells| ensures Inside(absoluteRange, cells[i]) {
      assert cells[i] in cells;
    }
    var n := if |writeValues| < |cellIndexesToWrite| then |writeValues| else |cellIndexesToWrite|;
    r := WriteCellsOf(input, cellIndexesToWrite, writeValues, n);
  }

  lemma WriteOneMore(input: seq<Row>, before: seq<Row>, after: seq<Row>, cells: seq<CellIndex>, values: seq<string>,
                     i: nat)
    requires i < |cells| && i < |values| && CellsWritten(input, before, cells, values, i) && Absolute(cells[i])
    requires forall k :: 0 <= k < i ==> RowMajorBefore(cells[k], cells[i])
    requires cells[i].row.i >= 0 && cells[i].column.i >= 0
    requires forall r, c :: Read(after, r, c) ==
               if r == cells[i].row.i && c == cells[i].column.i && r >= 0 && c >= 0 then Text(values[i])
               else Read(before, r, c)
    ensures CellsWritten(input, after, cells, values, i + 1)
  {
    assert cells[..i + 1] == cells[..i] + [cells[i]];
  }

  /** Cell A0 passes all checks on any sheet that has a cell, and writing to it throws. */
  lemma WritingRowZeroThrows(data: seq<Row>, columns: nat)
    requires |data| > 0 && columns > 0
    ensures var cell, bounds := CellIndex(At(0), At(-1)), Bounds(columns - 1, |data| - 1);
            var range := CellRange(cell, cell);
            && range.IsOneDimensional() && Ordered(range) && range.IsInBounds(bounds)
            && RowMajor(range, [cell]) && SomeUnwritable(data, [cell], 1)
  {
    var cell := CellIndex(At(0), At(-1));
    assert Absolute([cell][0]) && Unwritable(data, [cell][0]);
  }

  lemma OnlyEntry(i: int)
    ensures DeletionOrder([i]) == [i]
  {
    var single := [i];
    assert single[1..] == [] && single[..0] == [];
    assert Sort(single) == single && RemoveDuplicates(single) == single;
  }

  /** Deleting a single column throws if its assertion fails. */
  lemma DeletingColumnThrows(data: seq<Row>, columns: int, c: int)
    requires c >= columns
    ensures ColumnsInOrder(data, columns, DeletionOrder([c])).None?
  {
    OnlyEntry(c);
  }

  lemma DeletingRowThrows(data: seq<Row>, fits: bool, r: int)
    requires !fits
    ensures RowsInOrder(data, fits, DeletionOrder([r])).None?
  {
    OnlyEntry(r);
  }

  lemma SurplusIsFound(columns: nat, rows: nat, c: nat, r: nat)
    requires c < columns && r < rows
    ensures var bounds := Bounds(columns - 1, rows - 1);
            ColumnExists(c, bounds) && RowExists(r, bounds) && CellIndex(At(c), At(r)).IsInBounds(bounds)
  {}

  /**
   * A sheet that counts more columns than its longest row has: blocks find its surplus columns, but throw
   * on the clone when they delete one.
   */
  lemma SurplusColumnsThrow(data: seq<Row>, columns: nat, c: nat)
    requires |data| > 0 && LongestRow(data) <= c < columns
    ensures ColumnExists(c, Bounds(columns - 1, |data| - 1))
    ensures ColumnsInOrder(data, LongestRow(data), DeletionOrder([c])).None?
  {
    SurplusIsFound(columns, |data|, c, 0);
    DeletingColumnThrows(data, LongestRow(data), c);
  }

  /** They throw when they write to one of its cells. */
  lemma SurplusCellsThrow(data: seq<Row>, columns: nat, c: nat, r: nat)
    requires r < |data| && LongestRow(data) <= c < columns
    ensures var cell := CellIndex(At(c), At(r));
            cell.IsInBounds(Bounds(columns - 1, |data| - 1)) && SomeUnwritable(data, [cell], 1)
  {
    var cell := CellIndex(At(c), At(r));
    assert Absolute([cell][0]) && Unwritable(data, [cell][0]);
  }

  /** They throw when they delete any of its rows, too. */
  lemma RowsBesideSurplusThrow(data: seq<Row>, columns: nat, r: nat)
    requires r < |data| && LongestRow(data) < columns
    ensures RowExists(r, Bounds(columns - 1, |data| - 1))
    ensures RowsInOrder(data, columns == LongestRow(data), DeletionOrder([r])).None?
  {
    SurplusIsFound(columns, |data|, 0, r);
    DeletingRowThrows(data, columns == LongestRow(data), r);
  }

  /** Deleting the longest row, which keeps the number of columns, leaves such a sheet. */
  lemma DeletingLongestRowLeavesSurplus(long: Row, short: Row)
    requires |short| < |long|
    ensures var before, after := [long, short], SpliceOne([long, short], 0);
            LongestRow(before) == |long| && after == [short] && LongestRow(after) < LongestRow(before)
  {
    var before, after := [long, short], SpliceOne([long, short], 0);
    assert after == [short];
    assert before[0] == long && before[1] == short && after[0] == short;
  }
}
