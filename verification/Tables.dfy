/** Tables: named columns of equal length, edited in place. */
module Tables {
  import opened Common
  import opened ValueTypes
  import opened Validity
  import opened Deletion
  import opened Selection

  datatype Column = Column(values: seq<Value>, valueType: ValueType)

  /** The state of a table. */
  datatype Grid = Grid(numberOfRows: int, columns: map<string, Column>) {
    ghost predicate Rectangular() {
      numberOfRows >= 0 && forall name :: name in columns ==> |columns[name].values| == numberOfRows
    }

    /** Every value is a representation of its column's type. */
    ghost predicate WellTyped(h: Hierarchy) {
      forall name, k :: name in columns && 0 <= k < |columns[name].values| ==>
        IsRepresentation(h, columns[name].valueType, columns[name].values[k])
    }
  }

  /** Every column has a type that ends in a primitive, and holds valid values of it. */
  ghost predicate AllValid(m: Model, g: Grid) {
    forall name :: name in g.columns ==>
      Rooted(m.hierarchy, g.columns[name].valueType) && ColumnValid(m, g.columns[name])
  }

  ghost predicate ColumnValid(m: Model, c: Column)
    requires Rooted(m.hierarchy, c.valueType)
  {
    forall k :: 0 <= k < |c.values| ==> Verdict(m, c.valueType, c.values[k]) == Some(true)
  }

  /** Valid values are representations, so a table of valid values is well-typed. */
  lemma AllValidIsWellTyped(m: Model, g: Grid)
    requires AllValid(m, g)
    ensures g.WellTyped(m.hierarchy)
  {
    forall name, k | name in g.columns && 0 <= k < |g.columns[name].values|
      ensures IsRepresentation(m.hierarchy, g.columns[name].valueType, g.columns[name].values[k])
    {
      ValidIff(m, g.columns[name].valueType, g.columns[name].values[k]);
    }
  }

  function SplicedColumns(columns: map<string, Column>, rows: seq<int>): map<string, Column> {
    map name | name in columns :: columns[name].(values := SpliceAll(columns[name].values, rows))
  }

  function DroppedFrom(g: Grid, rows: seq<int>): Grid {
    Grid(g.numberOfRows - |rows|, SplicedColumns(g.columns, rows))
  }

  lemma DropNothing(g: Grid)
    ensures DroppedFrom(g, []) == g
  {
    assert SplicedColumns(g.columns, []) == g.columns;
  }

  lemma DropFirst(g: Grid, rows: seq<int>)
    requires |rows| > 0
    ensures DroppedFrom(g, rows) == DroppedFrom(DroppedFrom(g, [rows[0]]), rows[1..])
  {
    var first := SplicedColumns(g.columns, [rows[0]]);
    forall name | name in g.columns
      ensures SpliceAll(g.columns[name].values, rows) == SpliceAll(first[name].values, rows[1..])
    {
      assert [rows[0]] + rows[1..] == rows;
      SpliceAllComposes(g.columns[name].values, [rows[0]], rows[1..]);
    }
    assert SplicedColumns(g.columns, rows) == SplicedColumns(first, rows[1..]);
  }

  /** The columns without the given rows. */
  function WithoutRows(columns: map<string, Column>, rows: set<int>): map<string, Column> {
    map name | name in columns :: columns[name].(values := Without(columns[name].values, rows))
  }

  /** One value more at the end of each column. */
  function Extended(columns: map<string, Column>, row: map<string, Value>): map<string, Column>
    requires columns.Keys == row.Keys
  {
    map name | name in columns :: columns[name].(values := columns[name].values + [row[name]])
  }

  // ---------------------------------------------------------------------------
  // Dropping rows
  // ---------------------------------------------------------------------------

  function DescendingOrder(rowIds: seq<int>): (r: seq<int>)
    ensures |r| == |rowIds| && forall x :: x in r <==> x in rowIds
  {
    SortKeepsMembers(rowIds);
    Reverse(Sort(rowIds))
  }

  /** What the assertion of each single drop amounts to. */
  ghost predicate Droppable(numberOfRows: int, rows: seq<int>) {
    forall i :: 0 <= i < |rows| ==> rows[i] < numberOfRows - i
  }

  lemma {:induction false} SplicesDropOneEach<T>(s: seq<T>, rows: seq<int>)
    requires Droppable(|s|, rows) && |rows| <= |s|
    ensures |SpliceAll(s, rows)| == |s| - |rows|
    decreases |rows|
  {
    if |rows| > 0 {
      assert forall i :: 0 <= i < |rows| - 1 ==> rows[1..][i] == rows[i + 1];
      SplicesDropOneEach(SpliceOne(s, rows[0]), rows[1..]);
    }
  }

  lemma DescendingMembers(rowIds: seq<int>)
    ensures Elements(DescendingOrder(rowIds)) == Elements(rowIds)
  {}

  lemma DescendingOrderOfDistinct(rowIds: seq<int>)
    requires Distinct(rowIds)
    ensures Descending(DescendingOrder(rowIds))
  {
    SortIsAscending(rowIds);
    SortKeepsDistinct(rowIds);
  }

  lemma {:induction false} DescendingIsDroppable(numberOfRows: int, rows: seq<int>, i: nat)
    requires Descending(rows) && (forall r :: r in rows ==> r < numberOfRows) && i < |rows|
    ensures rows[i] < numberOfRows - i
    decreases i
  {
    if i > 0 {
      DescendingIsDroppable(numberOfRows, rows, i - 1);
    } else {
      assert rows[i] in rows;
    }
  }

  lemma DistinctRowsAreDroppable(numberOfRows: int, rowIds: seq<int>)
    requires Distinct(rowIds) && forall r :: r in rowIds ==> 0 <= r < numberOfRows
    ensures Droppable(numberOfRows, DescendingOrder(rowIds))
  {
    var rows := DescendingOrder(rowIds);
    DescendingOrderOfDistinct(rowIds);
    forall i | 0 <= i < |rows| ensures rows[i] < numberOfRows - i {
      DescendingIsDroppable(numberOfRows, rows, i);
    }
  }

  lemma DroppableIsShort(numberOfRows: nat, rowIds: seq<int>)
    requires (forall r :: r in rowIds ==> 0 <= r) && Droppable(numberOfRows, DescendingOrder(rowIds))
    ensures |rowIds| <= numberOfRows
  {
    var rows := DescendingOrder(rowIds);
    if |rows| > 0 { assert rows[|rows| - 1] in rows; }
  }

  lemma DistinctRowsAreRemoved<T>(s: seq<T>, rowIds: seq<int>)
    requires Distinct(rowIds) && forall r :: r in rowIds ==> 0 <= r < |s|
    ensures SpliceAll(s, DescendingOrder(rowIds)) == Without(s, Elements(rowIds))
  {
    var rows := DescendingOrder(rowIds);
    DescendingOrderOfDistinct(rowIds);
    DescendingMembers(rowIds);
    forall i | 0 <= i < |rows| ensures 0 <= rows[i] { assert rows[i] in rows; }
    DescendingSplicesRemove(s, rows);
  }

  /** Dropping a list of existing rows removes exactly those rows if and only if none is listed twice. */
  lemma DropsNamedRowsIff<T>(s: seq<T>, rowIds: seq<int>)
    requires forall r :: r in rowIds ==> 0 <= r < |s|
    ensures (Droppable(|s|, DescendingOrder(rowIds))
             && SpliceAll(s, DescendingOrder(rowIds)) == Without(s, Elements(rowIds)))
       <==> Distinct(rowIds)
  {
    if Distinct(rowIds) {
      DistinctRowsAreDroppable(|s|, rowIds);
      DistinctRowsAreRemoved(s, rowIds);
    } else if Droppable(|s|, DescendingOrder(rowIds)) {
      DroppableIsShort(|s|, rowIds);
      SplicesDropOneEach(s, DescendingOrder(rowIds));
      WithoutCount(s, Elements(rowIds));
      SubsetCount((set i | 0 <= i < |s| && i in Elements(rowIds)), Elements(rowIds));
      ElementsOfDistinct(rowIds);
    }
  }

  // ---------------------------------------------------------------------------
  // The table
  // ---------------------------------------------------------------------------

  class Table {
    var numberOfRows: int
    var columns: map<string, Column>

    function State(): Grid
      reads this
    {
      Grid(numberOfRows, columns)
    }

    ghost predicate Valid()
      reads this
    {
      State().Rectangular()
    }

    constructor (numberOfRows: nat)
      ensures State() == Grid(numberOfRows, map[]) && Valid()
    {
      this.numberOfRows := numberOfRows;
      columns := map[];
    }

    /** Adds or overwrites a column. */
    method AddColumn(name: string, column: Column)
      requires Valid() && |column.values| == numberOfRows
      modifies this
      ensures Valid() && State() == Grid(old(numberOfRows), old(columns)[name := column])
    {
      columns := columns[name := column];
    }

    /** A row is only counted if the table has a column. */
    method AddRow(h: Hierarchy, row: map<string, Value>)
      requires Valid() && row.Keys == columns.Keys
      requires forall name :: name in row ==> IsRepresentation(h, columns[name].valueType, row[name])
      modifies this
      ensures columns == Extended(old(columns), row)
      ensures numberOfRows == if old(columns).Keys == {} then old(numberOfRows) else old(numberOfRows) + 1
      ensures Valid()
      ensures old(State()).WellTyped(h) ==> State().WellTyped(h)
    {
      if row.Keys == {} { return; }
      var remaining := row.Keys;
      while remaining != {}
        invariant remaining <= row.Keys && columns.Keys == old(columns).Keys && numberOfRows == old(numberOfRows)
        invariant forall name :: name in columns ==>
                    columns[name] == if name in remaining then old(columns)[name] else Extended(old(columns), row)[name]
        decreases remaining
      {
        var name :| name in remaining;
        columns := columns[name := columns[name].(values := columns[name].values + [row[name]])];
        remaining := remaining - {name};
      }
      numberOfRows := numberOfRows + 1;
    }

    /** A negative row counts from the end, as splicing does; only an empty table is broken by that. */
    method DropRow(rowId: int)
      requires rowId < numberOfRows
      modifies this
      ensures State() == DroppedFrom(old(State()), [rowId])
      ensures old(Valid()) ==> (Valid() <==> old(numberOfRows) > 0)
    {
      assert forall s: seq<Value> :: SpliceAll(s, [rowId]) == SpliceOne(s, rowId);
      columns := map name | name in columns :: columns[name].(values := SpliceOne(columns[name].values, rowId));
      numberOfRows := numberOfRows - 1;
    }

    method DropRows(rowIds: seq<int>)
      requires Droppable(numberOfRows, DescendingOrder(rowIds))
      modifies this
      ensures State() == DroppedFrom(old(State()), DescendingOrder(rowIds))
    {
      var sorted := DescendingOrder(rowIds);
      for i := 0 to |sorted|
        invariant numberOfRows == old(numberOfRows) - i
        invariant DroppedFrom(State(), sorted[i..]) == DroppedFrom(old(State()), sorted)
      {
        DropFirst(State(), sorted[i..]);
        assert sorted[i..][1..] == sorted[i + 1..];
        DropRow(sorted[i]);
      }
      DropNothing(State());
    }

    method Clone() returns (cloned: Table)
      requires Valid()
      ensures fresh(cloned) && cloned.State() == State() && cloned.Valid()
    {
      cloned := new Table(0);
      cloned.numberOfRows := numberOfRows;
      var remaining := columns.Keys;
      while remaining != {}
        invariant remaining <= columns.Keys && cloned.numberOfRows == numberOfRows && cloned.Valid()
        invariant cloned.columns == map name | name in columns && name !in remaining :: columns[name]
        decreases remaining
      {
        var name :| name in remaining;
        cloned.AddColumn(name, columns[name]);
        remaining := remaining - {name};
      }
    }

    /** None is the error that there is no such row. */
    method GetRow(rowId: nat) returns (row: Option<map<string, Value>>)
      requires Valid()
      ensures row.None? <==> rowId >= numberOfRows
      ensures row.Some? ==> row.value.Keys == columns.Keys && row.value == RowAt(State(), rowId)
      ensures row.Some? ==> forall name :: name in columns ==> row.value[name] == columns[name].values[rowId]
    {
      if rowId >= numberOfRows { return None; }
      row := Some(map name | name in columns :: columns[name].values[rowId]);
    }
  }

  ghost function RowAt(g: Grid, k: nat): map<string, Value>
    requires g.Rectangular() && k < g.numberOfRows
  {
    map name | name in g.columns :: g.columns[name].values[k]
  }

  /** Reading after adding: the added row is the last one, and the others are as before. */
  lemma AddedRowIsRead(g: Grid, row: map<string, Value>, k: nat)
    requires g.Rectangular() && g.columns.Keys == row.Keys != {} && k <= g.numberOfRows
    ensures var after := Grid(g.numberOfRows + 1, Extended(g.columns, row));
            after.Rectangular() && RowAt(after, k) == if k == g.numberOfRows then row else RowAt(g, k)
  {
    var after := Grid(g.numberOfRows + 1, Extended(g.columns, row));
    assert RowAt(after, g.numberOfRows) == row;
  }

  lemma EqualRows(g: Grid, k: nat, other: Grid, i: nat)
    requires g.Rectangular() && k < g.numberOfRows && other.Rectangular() && i < other.numberOfRows
    requires g.columns.Keys == other.columns.Keys
    requires forall name :: name in g.columns ==> g.columns[name].values[k] == other.columns[name].values[i]
    ensures RowAt(g, k) == RowAt(other, i)
  {}

  lemma SplicedEntry<T>(s: seq<T>, i: nat, k: nat)
    requires i < |s| && k < |s| - 1
    ensures var spliced := SpliceAll(s, [i]);
            |spliced| == |s| - 1 && spliced[k] == s[if k < i then k else k + 1]
  {
    assert SpliceAll(s, [i]) == SpliceOne(s, i) by {
      assert [i][1..] == [];
    }
  }

  /** Reading after dropping one row: the later rows have moved up. */
  lemma DroppedRowIsSkipped(g: Grid, rowId: nat, k: nat)
    requires g.Rectangular() && rowId < g.numberOfRows && k < g.numberOfRows - 1
    ensures var after := DroppedFrom(g, [rowId]);
            after.Rectangular() && RowAt(after, k) == RowAt(g, if k < rowId then k else k + 1)
  {
    var after := DroppedFrom(g, [rowId]);
    var from := if k < rowId then k else k + 1;
    forall name | name in g.columns
      ensures name in after.columns && |after.columns[name].values| == g.numberOfRows - 1
           && after.columns[name].values[k] == g.columns[name].values[from]
    {
      SplicedEntry(g.columns[name].values, rowId, k);
    }
    EqualRows(after, k, g, from);
  }

  lemma AddedColumnIsRead(g: Grid, name: string, column: Column, k: nat)
    requires g.Rectangular() && |column.values| == g.numberOfRows && k < g.numberOfRows
    ensures var after := g.(columns := g.columns[name := column]);
            after.Rectangular() && RowAt(after, k) == RowAt(g, k)[name := column.values[k]]
  {}

  /** Reading after dropping the rows with failed outcomes: the surviving rows, in order. */
  lemma SurvivingRowIsRead<T>(g: Grid, outcomes: seq<Option<T>>, k: nat)
    requires g.Rectangular() && |outcomes| == g.numberOfRows && k < |Survivors(outcomes)|
    ensures var after := Grid(|Survivors(outcomes)|, WithoutRows(g.columns, Elements(Dropped(outcomes))));
            after.Rectangular() && RowAt(after, k) == RowAt(g, Survivors(outcomes)[k])
  {
    forall name | name in g.columns
      ensures var values := Without(g.columns[name].values, Elements(Dropped(outcomes)));
              |values| == |Survivors(outcomes)| && values[k] == g.columns[name].values[Survivors(outcomes)[k]]
    {
      DeletingDroppedLeavesSurvivors(g.columns[name].values, outcomes);
    }
  }

  /** Rows determine a rectangular table, apart from the types of its columns. */
  lemma RowsDetermineColumns(g: Grid, other: Grid)
    requires g.Rectangular() && other.Rectangular() && g.numberOfRows == other.numberOfRows
    requires g.columns.Keys == other.columns.Keys
    requires forall k: nat :: k < g.numberOfRows ==> RowAt(g, k) == RowAt(other, k)
    ensures forall name :: name in g.columns ==> g.columns[name].values == other.columns[name].values
  {
    forall name | name in g.columns ensures g.columns[name].values == other.columns[name].values {
      forall k: nat | k < g.numberOfRows ensures g.columns[name].values[k] == other.columns[name].values[k] {
        assert RowAt(g, k)[name] == RowAt(other, k)[name];
      }
    }
  }

  /** With distinct existing rows, dropping is removal in every column. */
  lemma DroppingDistinctRows(g: Grid, rowIds: seq<int>)
    requires g.Rectangular() && Distinct(rowIds) && forall r :: r in rowIds ==> 0 <= r < g.numberOfRows
    ensures Droppable(g.numberOfRows, DescendingOrder(rowIds))
    ensures DroppedFrom(g, DescendingOrder(rowIds))
         == Grid(g.numberOfRows - |rowIds|, WithoutRows(g.columns, Elements(rowIds)))
  {
    DistinctRowsAreDroppable(g.numberOfRows, rowIds);
    forall name | name in g.columns
      ensures SpliceAll(g.columns[name].values, DescendingOrder(rowIds))
              == Without(g.columns[name].values, Elements(rowIds))
    {
      DistinctRowsAreRemoved(g.columns[name].values, rowIds);
    }
  }
}
