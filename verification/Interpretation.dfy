/** Reading a sheet as a table: parsing cells, checking them against value types, matching headers. */
module Interpretation {
  import opened Common
  import opened ValueTypes
  import opened Expressions
  import opened OperatorLaws
  import opened Contexts
  import opened Validity
  import opened ConstraintTyping
  import opened Selection
  import opened Tables
  import Sheets

  /** A column definition: its name and value type. */
  datatype Assignment = Assignment(name: string, valueType: ValueType)

  datatype ColumnEntry = ColumnEntry(sheetColumnIndex: nat, columnName: string, valueType: ValueType)

  function EntryNames(entries: seq<ColumnEntry>): (r: seq<string>)
    ensures |r| == |entries| && forall i :: 0 <= i < |r| ==> r[i] == entries[i].columnName
  {
    seq(|entries|, i requires 0 <= i < |entries| => entries[i].columnName)
  }

  ghost predicate EntriesRooted(h: Hierarchy, entries: seq<ColumnEntry>) {
    forall i :: 0 <= i < |entries| ==> Rooted(h, entries[i].valueType)
  }

  // ---------------------------------------------------------------------------
  // One cell
  // ---------------------------------------------------------------------------

  /** None for a hole, or past the end of a short row. */
  function CellText(row: Sheets.Row, i: nat): Option<string> {
    if i < |row| && row[i].Text? then Some(row[i].text) else None
  }

  /** Parsing by the primitive type at the end of the chain; a missing text is not even a valid text. */
  function FromString(lib: Library, h: Hierarchy, t: ValueType, text: Option<string>): Option<Value>
    requires Rooted(h, t)
    decreases Height(h, t)
  {
    if t.AtomicType? then FromString(lib, h, GetSupertype(h, t).value, text)
    else if text.None? then None
    else if t.TextType? then Some(TextV(text.value))
    else if t.BooleanType? then
      match ParseBoolean(text.value) case None => None case Some(b) => Some(BoolV(b))
    else if t.DecimalType? then
      match lib.parseDecimal(text.value) case None => None case Some(d) => Some(NumV(d))
    else if t.IntegerType? then
      match ParseInteger(lib, text.value) case None => None case Some(i) => Some(NumV(i))
    else None
  }

  function ParseValue(lib: Library, h: Hierarchy, t: ValueType, text: Option<string>): Option<Value>
    requires Rooted(h, t)
  {
    var result := FromString(lib, h, t, text);
    if result.Some? && IsRepresentation(h, t, result.value) then result else None
  }

  /** Texts stand for themselves, booleans are spelled out in any case, and integers are whole numbers. */
  predicate Spells(lib: Library, t: ValueType, text: string, v: Value) {
    match v
    case TextV(s) => t == TextType && s == text
    case BoolV(b) => t == BooleanType && LowerCased(text) == if b then "true" else "false"
    case NumV(n) =>
      && (t == DecimalType || (t == IntegerType && IsInteger(n)))
      && lib.parseDecimal(text) == Some(n)
    case _ => false
  }

  /** The text spells the value in the type at the end of the chain. */
  ghost predicate SpellsInRoot(lib: Library, h: Hierarchy, t: ValueType, text: string, v: Value) {
    exists n: nat :: PrimitiveAfter(h, t, n) && Spells(lib, Ancestor(h, t, n).value, text, v)
  }

  lemma PrimitiveIsItsOwnRoot(h: Hierarchy, t: ValueType, n: nat)
    requires !t.AtomicType?
    ensures PrimitiveAfter(h, t, n) <==> n == 0
  {
    if n > 0 { assert DeclaredSupertype(h, t).None?; }
  }

  lemma PrimitiveSpelling(lib: Library, h: Hierarchy, t: ValueType, text: string, v: Value)
    requires !t.AtomicType?
    ensures FromString(lib, h, t, Some(text)) == Some(v) <==> Spells(lib, t, text, v)
  {
    BooleansIgnoreCase(text);
    if lib.parseDecimal(text).Some? { WholeIffTruncated(lib.parseDecimal(text).value); }
  }

  /** Parsing yields exactly the values that the text spells. */
  lemma {:induction false} ParsingIff(lib: Library, h: Hierarchy, t: ValueType, text: string, v: Value)
    requires Rooted(h, t)
    ensures FromString(lib, h, t, Some(text)) == Some(v) <==> SpellsInRoot(lib, h, t, text, v)
    decreases Height(h, t)
  {
    if t.AtomicType? {
      var s := GetSupertype(h, t).value;
      ParsingIff(lib, h, s, text, v);
      forall n: nat ensures Ancestor(h, t, n + 1) == Ancestor(h, s, n) {}
      if n: nat :| PrimitiveAfter(h, s, n) && Spells(lib, Ancestor(h, s, n).value, text, v) {
        assert PrimitiveAfter(h, t, n + 1);
      }
      if n: nat :| PrimitiveAfter(h, t, n) && Spells(lib, Ancestor(h, t, n).value, text, v) {
        assert PrimitiveAfter(h, s, n - 1);
      }
    } else {
      PrimitiveSpelling(lib, h, t, text, v);
      PrimitiveIsItsOwnRoot(h, t, 0);
      forall n: nat | PrimitiveAfter(h, t, n) ensures n == 0 { PrimitiveIsItsOwnRoot(h, t, n); }
    }
  }

  datatype Parsed = Good(v: Value) | Bad | Failing

  /** Failing is the failed assertion of a constraint. */
  function ParseAndValidate(m: Model, t: ValueType, text: Option<string>): Parsed
    requires Rooted(m.hierarchy, t)
  {
    match ParseValue(m.library, m.hierarchy, t, text)
    case None => Bad
    case Some(v) =>
      match Verdict(m, t, v)
      case None => Failing
      case Some(valid) => if valid then Good(v) else Bad
  }

  /** What a parser yields is of the type it was asked for, so the check behind it never rejects. */
  lemma {:induction false} ParsersAreTypeCorrect(lib: Library, h: Hierarchy, t: ValueType, text: Option<string>)
    requires Rooted(h, t)
    ensures ParseValue(lib, h, t, text) == FromString(lib, h, t, text)
    ensures text.None? ==> FromString(lib, h, t, text).None?
    decreases Height(h, t)
  {
    if t.AtomicType? {
      ParsersAreTypeCorrect(lib, h, GetSupertype(h, t).value, text);
    } else if t.IntegerType? && text.Some? && lib.parseDecimal(text.value).Some? {
      var d := lib.parseDecimal(text.value).value;
      assert d == Truncate(d) as real ==> IsInteger(Truncate(d) as real);
    }
  }

  /** A cell is good exactly if it exists, parses, and meets every constraint of every type up the chain. */
  lemma GoodIff(m: Model, t: ValueType, text: Option<string>, v: Value)
    requires Rooted(m.hierarchy, t)
    ensures ParseAndValidate(m, t, text) == Good(v) <==>
            text.Some? && FromString(m.library, m.hierarchy, t, text) == Some(v) && MeetsAll(m, t, v)
  {
    ParsersAreTypeCorrect(m.library, m.hierarchy, t, text);
    ValidIff(m, t, v);
  }

  /** In a validated model, a cell crashes exactly if it parses to a value that some constraint is undecided for. */
  lemma FailingIff(m: Model, t: ValueType, text: Option<string>)
    requires TypedConstraints(m) && Rooted(m.hierarchy, t)
    ensures ParseAndValidate(m, t, text).Failing? <==>
            var parsed := FromString(m.library, m.hierarchy, t, text);
            parsed.Some? && exists n: nat, k: nat :: UndecidedAt(m, t, parsed.value, n, k)
  {
    ParsersAreTypeCorrect(m.library, m.hierarchy, t, text);
    var parsed := ParseValue(m.library, m.hierarchy, t, text);
    if parsed.Some? { TypedVerdictFailsIff(m, t, parsed.value); }
  }

  method ParseAndValidateValue(m: Model, t: ValueType, text: Option<string>, context: ExecutionContext)
    returns (r: Parsed)
    requires m.WellScoped() && Rooted(m.hierarchy, t)
    modifies context, context.evaluation
    ensures r == ParseAndValidate(m, t, text)
    ensures !r.Failing? ==> Restored(context)
  {
    var parsedValue := ParseValue(m.library, m.hierarchy, t, text);
    if parsedValue.None? { return Bad; }
    var valid, _ := IsValidValueRepresentation(m, parsedValue.value, t, context);
    if valid.None? { return Failing; }
    return if valid.value then Good(parsedValue.value) else Bad;
  }

  // ---------------------------------------------------------------------------
  // One row
  // ---------------------------------------------------------------------------

  function Cell(m: Model, entry: ColumnEntry, row: Sheets.Row): Parsed
    requires Rooted(m.hierarchy, entry.valueType)
  {
    ParseAndValidate(m, entry.valueType, CellText(row, entry.sheetColumnIndex))
  }

  /** The row has a text in the column of the entry, which spells the value, and the value is valid. */
  ghost predicate Reads(m: Model, entry: ColumnEntry, row: Sheets.Row, v: Value) {
    && entry.sheetColumnIndex < |row|
    && row[entry.sheetColumnIndex].Text?
    && SpellsInRoot(m.library, m.hierarchy, entry.valueType, row[entry.sheetColumnIndex].text, v)
    && MeetsAll(m, entry.valueType, v)
  }

  /** The cell spells a value that a constraint up the chain gives no verdict on. */
  ghost predicate FailsToRead(m: Model, entry: ColumnEntry, row: Sheets.Row) {
    exists v ::
      && entry.sheetColumnIndex < |row| && row[entry.sheetColumnIndex].Text?
      && SpellsInRoot(m.library, m.hierarchy, entry.valueType, row[entry.sheetColumnIndex].text, v)
      && Fails(m, entry.valueType, v)
  }

  /** The outcomes of a cell in terms of the sheet: read, failing an assertion of a constraint, or neither. */
  lemma CellIff(m: Model, entry: ColumnEntry, row: Sheets.Row, v: Value)
    requires Rooted(m.hierarchy, entry.valueType)
    ensures Cell(m, entry, row) == Good(v) <==> Reads(m, entry, row, v)
    ensures Cell(m, entry, row).Failing? <==> FailsToRead(m, entry, row)
  {
    var text := CellText(row, entry.sheetColumnIndex);
    GoodIff(m, entry.valueType, text, v);
    ParsersAreTypeCorrect(m.library, m.hierarchy, entry.valueType, text);
    if text.Some? {
      forall u
        ensures FromString(m.library, m.hierarchy, entry.valueType, text) == Some(u) <==>
                SpellsInRoot(m.library, m.hierarchy, entry.valueType, text.value, u)
      {
        ParsingIff(m.library, m.hierarchy, entry.valueType, text.value, u);
      }
      var parsed := ParseValue(m.library, m.hierarchy, entry.valueType, text);
      if parsed.Some? { VerdictFailsIff(m, entry.valueType, parsed.value); }
    }
  }

  /** The values read for the columns that are good. */
  function RowMap(m: Model, entries: seq<ColumnEntry>, row: Sheets.Row): (r: map<string, Value>)
    requires EntriesRooted(m.hierarchy, entries)
  {
    if |entries| == 0 then map[]
    else
      var n := |entries| - 1;
      var before := RowMap(m, entries[..n], row);
      match Cell(m, entries[n], row)
      case Good(v) => before[entries[n].columnName := v]
      case _ => before
  }

  predicate NoneFails(m: Model, entries: seq<ColumnEntry>, row: Sheets.Row)
    requires EntriesRooted(m.hierarchy, entries)
  {
    forall i :: 0 <= i < |entries| ==> !Cell(m, entries[i], row).Failing?
  }

  predicate AllGood(m: Model, entries: seq<ColumnEntry>, row: Sheets.Row)
    requires EntriesRooted(m.hierarchy, entries)
  {
    forall i :: 0 <= i < |entries| ==> Cell(m, entries[i], row).Good?
  }

  ghost predicate Readable(m: Model, entry: ColumnEntry, row: Sheets.Row) { exists v :: Reads(m, entry, row, v) }

  lemma GoodIsReadable(m: Model, entry: ColumnEntry, row: Sheets.Row)
    requires Rooted(m.hierarchy, entry.valueType)
    ensures Cell(m, entry, row).Good? <==> Readable(m, entry, row)
  {
    if Cell(m, entry, row).Good? { CellIff(m, entry, row, Cell(m, entry, row).v); }
    if v :| Reads(m, entry, row, v) { CellIff(m, entry, row, v); }
  }

  /** Every entry can be read from the row. */
  ghost predicate AllReadable(m: Model, entries: seq<ColumnEntry>, row: Sheets.Row) {
    forall j :: 0 <= j < |entries| ==> Readable(m, entries[j], row)
  }

  lemma AllGoodIff(m: Model, entries: seq<ColumnEntry>, row: Sheets.Row)
    requires EntriesRooted(m.hierarchy, entries)
    ensures AllGood(m, entries, row) <==> AllReadable(m, entries, row)
  {
    forall j | 0 <= j < |entries| ensures Cell(m, entries[j], row).Good? <==> Readable(m, entries[j], row) {
      GoodIsReadable(m, entries[j], row);
    }
  }

  lemma {:induction false} RowMapKeys(m: Model, entries: seq<ColumnEntry>, row: Sheets.Row)
    requires EntriesRooted(m.hierarchy, entries) && AllGood(m, entries, row)
    ensures RowMap(m, entries, row).Keys == Elements(EntryNames(entries))
    decreases |entries|
  {
    if |entries| > 0 {
      var n := |entries| - 1;
      RowMapKeys(m, entries[..n], row);
      assert EntryNames(entries) == EntryNames(entries[..n]) + [entries[n].columnName];
    }
  }

  lemma {:induction false} RowMapAt(m: Model, entries: seq<ColumnEntry>, row: Sheets.Row, i: nat)
    requires EntriesRooted(m.hierarchy, entries) && AllGood(m, entries, row)
    requires Distinct(EntryNames(entries)) && i < |entries|
    ensures entries[i].columnName in RowMap(m, entries, row)
    ensures RowMap(m, entries, row)[entries[i].columnName] == Cell(m, entries[i], row).v
    decreases |entries|
  {
    var n := |entries| - 1;
    if i < n {
      assert EntryNames(entries)[i] != EntryNames(entries)[n];
      assert EntryNames(entries[..n]) == EntryNames(entries)[..n];
      RowMapAt(m, entries[..n], row, i);
    }
  }

  datatype RowParse = ValidRow(values: map<string, Value>) | OmittedRow | CrashedRow

  /** A failing constraint crashes, and so do valid rows if two columns share a name. */
  function ParseRow(m: Model, entries: seq<ColumnEntry>, row: Sheets.Row): RowParse
    requires EntriesRooted(m.hierarchy, entries)
  {
    if !NoneFails(m, entries, row) then CrashedRow
    else if !AllGood(m, entries, row) then OmittedRow
    else if |RowMap(m, entries, row).Keys| != |entries| then CrashedRow
    else ValidRow(RowMap(m, entries, row))
  }

  /** A row is read exactly if every needed cell exists, parses and is valid; then it has those values. */
  lemma ValidRowIff(m: Model, entries: seq<ColumnEntry>, row: Sheets.Row)
    requires EntriesRooted(m.hierarchy, entries) && Distinct(EntryNames(entries))
    ensures ParseRow(m, entries, row).ValidRow? <==> AllGood(m, entries, row)
    ensures ParseRow(m, entries, row).CrashedRow? <==> !NoneFails(m, entries, row)
    ensures ParseRow(m, entries, row).ValidRow? ==>
              var values := ParseRow(m, entries, row).values;
              && values.Keys == Elements(EntryNames(entries))
              && forall i :: 0 <= i < |entries| ==> Cell(m, entries[i], row) == Good(values[entries[i].columnName])
  {
    if AllGood(m, entries, row) {
      RowMapKeys(m, entries, row);
      ElementsOfDistinct(EntryNames(entries));
      forall i | 0 <= i < |entries|
        ensures Cell(m, entries[i], row) == Good(RowMap(m, entries, row)[entries[i].columnName])
      {
        RowMapAt(m, entries, row, i);
      }
    }
  }

  /** Without distinct column names no row is ever read. */
  lemma RepeatedNamesReadNothing(m: Model, entries: seq<ColumnEntry>, row: Sheets.Row)
    requires EntriesRooted(m.hierarchy, entries) && !Distinct(EntryNames(entries))
    ensures !ParseRow(m, entries, row).ValidRow?
  {
    if AllGood(m, entries, row) {
      RowMapKeys(m, entries, row);
      ElementsOfDistinct(EntryNames(entries));
    }
  }

  lemma RowMapOneMore(m: Model, entries: seq<ColumnEntry>, row: Sheets.Row, i: nat)
    requires EntriesRooted(m.hierarchy, entries) && i < |entries|
    ensures RowMap(m, entries[..i + 1], row) == match Cell(m, entries[i], row)
              case Good(v) => RowMap(m, entries[..i], row)[entries[i].columnName := v]
              case _ => RowMap(m, entries[..i], row)
  {
    assert entries[..i + 1][..i] == entries[..i];
  }

  method ConstructAndValidateTableRow(m: Model, sheetRow: Sheets.Row, entries: seq<ColumnEntry>,
                                      context: ExecutionContext)
    returns (r: RowParse)
    requires m.WellScoped() && EntriesRooted(m.hierarchy, entries)
    modifies context, context.evaluation
    ensures r == ParseRow(m, entries, sheetRow)
    ensures !r.CrashedRow? ==> Restored(context)
  {
    var invalidRow := false;
    var tableRow: map<string, Value> := map[];
    for i := 0 to |entries|
      invariant NoneFails(m, entries[..i], sheetRow)
      invariant !invalidRow <==> AllGood(m, entries[..i], sheetRow)
      invariant tableRow == RowMap(m, entries[..i], sheetRow)
      invariant Restored(context)
    {
      var entry := entries[i];
      var parsedValue := ParseAndValidateValue(m, entry.valueType, CellText(sheetRow, entry.sheetColumnIndex), context);
      RowMapOneMore(m, entries, sheetRow, i);
      TakeOneMore(entries, i);
      match parsedValue {
        case Failing => return CrashedRow;
        case Bad => invalidRow := true;
        case Good(v) => tableRow := tableRow[entry.columnName := v];
      }
    }
    assert entries[..|entries|] == entries;
    if invalidRow { return OmittedRow; }
    if |tableRow.Keys| != |entries| { return CrashedRow; }
    return ValidRow(tableRow);
  }

  // ---------------------------------------------------------------------------
  // The table
  // ---------------------------------------------------------------------------

  /** The value types by column name; of two entries with one name the later one counts. */
  function TypesOf(entries: seq<ColumnEntry>): (r: map<string, ValueType>)
    ensures r.Keys == Elements(EntryNames(entries))
  {
    if |entries| == 0 then map[]
    else
      var n := |entries| - 1;
      assert EntryNames(entries) == EntryNames(entries[..n]) + [entries[n].columnName];
      TypesOf(entries[..n])[entries[n].columnName := entries[n].valueType]
  }

  lemma {:induction false} TypeOfEntry(entries: seq<ColumnEntry>, i: nat)
    requires Distinct(EntryNames(entries)) && i < |entries|
    ensures entries[i].columnName in TypesOf(entries) && TypesOf(entries)[entries[i].columnName] == entries[i].valueType
    decreases |entries|
  {
    var n := |entries| - 1;
    if i < n {
      assert EntryNames(entries)[i] != EntryNames(entries)[n];
      assert EntryNames(entries[..n]) == EntryNames(entries)[..n];
      TypeOfEntry(entries[..n], i);
    }
  }

  ghost predicate RowsFit(types: map<string, ValueType>, rows: seq<map<string, Value>>) {
    forall k :: 0 <= k < |rows| ==> rows[k].Keys == types.Keys
  }

  function ColumnOf(name: string, t: ValueType, rows: seq<map<string, Value>>): Column
    requires forall k :: 0 <= k < |rows| ==> name in rows[k]
  {
    Column(seq(|rows|, k requires 0 <= k < |rows| => rows[k][name]), t)
  }

  /** The table with the given columns and rows; without columns there are no rows either. */
  ghost function TableFrom(types: map<string, ValueType>, rows: seq<map<string, Value>>): Grid
    requires RowsFit(types, rows)
  {
    Grid(if types.Keys == {} then 0 else |rows|, map name | name in types :: ColumnOf(name, types[name], rows))
  }

  function ReadRow(parse: RowParse): Option<map<string, Value>> {
    if parse.ValidRow? then Some(parse.values) else None
  }

  /** What becomes of row i of the sheet; a header row is left out. */
  function ParseSheetRow(m: Model, entries: seq<ColumnEntry>, header: bool, rows: seq<Sheets.Row>, i: nat): RowParse
    requires EntriesRooted(m.hierarchy, entries) && i < |rows|
  {
    if header && i == 0 then OmittedRow else ParseRow(m, entries, rows[i])
  }

  function ParseRows(m: Model, entries: seq<ColumnEntry>, header: bool, rows: seq<Sheets.Row>, n: nat)
    : (r: seq<RowParse>)
    requires EntriesRooted(m.hierarchy, entries) && n <= |rows|
    ensures |r| == n && forall i :: 0 <= i < n ==> r[i] == ParseSheetRow(m, entries, header, rows, i)
  {
    seq(n, i requires 0 <= i < n => ParseSheetRow(m, entries, header, rows, i))
  }

  predicate NoneCrashes(parses: seq<RowParse>) { forall i :: 0 <= i < |parses| ==> !parses[i].CrashedRow? }

  function ReadAll(parses: seq<RowParse>): (r: seq<Option<map<string, Value>>>)
    ensures |r| == |parses| && forall i :: 0 <= i < |r| ==> r[i] == ReadRow(parses[i])
  {
    seq(|parses|, i requires 0 <= i < |parses| => ReadRow(parses[i]))
  }

  function ReadRows(m: Model, entries: seq<ColumnEntry>, header: bool, rows: seq<Sheets.Row>)
    : seq<Option<map<string, Value>>>
    requires EntriesRooted(m.hierarchy, entries)
  {
    ReadAll(ParseRows(m, entries, header, rows, |rows|))
  }

  lemma ReadRowFits(m: Model, entries: seq<ColumnEntry>, row: Sheets.Row)
    requires EntriesRooted(m.hierarchy, entries) && ParseRow(m, entries, row).ValidRow?
    ensures ParseRow(m, entries, row).values.Keys == TypesOf(entries).Keys
    ensures forall name :: name in TypesOf(entries) ==>
              && Rooted(m.hierarchy, TypesOf(entries)[name])
              && Verdict(m, TypesOf(entries)[name], ParseRow(m, entries, row).values[name]) == Some(true)
  {
    if !Distinct(EntryNames(entries)) { RepeatedNamesReadNothing(m, entries, row); }
    ValidRowIff(m, entries, row);
    forall name | name in TypesOf(entries)
      ensures Rooted(m.hierarchy, TypesOf(entries)[name])
           && Verdict(m, TypesOf(entries)[name], ParseRow(m, entries, row).values[name]) == Some(true)
    {
      var i :| 0 <= i < |entries| && EntryNames(entries)[i] == name;
      TypeOfEntry(entries, i);
      assert Cell(m, entries[i], row) == Good(ParseRow(m, entries, row).values[name]);
    }
  }

  lemma ReadRowsFit(m: Model, entries: seq<ColumnEntry>, header: bool, rows: seq<Sheets.Row>)
    requires EntriesRooted(m.hierarchy, entries)
    ensures RowsFit(TypesOf(entries), Kept(ReadRows(m, entries, header, rows)))
  {
    var read := ReadRows(m, entries, header, rows);
    KeptAreSurvivors(read);
    forall k | 0 <= k < |Kept(read)| ensures Kept(read)[k].Keys == TypesOf(entries).Keys {
      ReadRowFits(m, entries, rows[Survivors(read)[k]]);
    }
  }

  ghost function ExpectedTable(m: Model, entries: seq<ColumnEntry>, header: bool, rows: seq<Sheets.Row>): Grid
    requires EntriesRooted(m.hierarchy, entries)
  {
    ReadRowsFit(m, entries, header, rows);
    TableFrom(TypesOf(entries), Kept(ReadRows(m, entries, header, rows)))
  }

  /** The rows read are, in order, those after the header whose needed cells all exist, parse and are valid. */
  lemma ReadRowsAreTheValidOnes(m: Model, entries: seq<ColumnEntry>, header: bool, rows: seq<Sheets.Row>)
    requires EntriesRooted(m.hierarchy, entries) && Distinct(EntryNames(entries))
    ensures var read := Survivors(ReadRows(m, entries, header, rows));
            && (forall i, j :: 0 <= i < j < |read| ==> read[i] < read[j])
            && (forall i: nat :: i < |rows| ==>
                  (i in read <==> !(header && i == 0) && AllReadable(m, entries, rows[i])))
            && |Kept(ReadRows(m, entries, header, rows))| == |read|
  {
    var outcomes := ReadRows(m, entries, header, rows);
    EveryEntrySurvivesOrIsDropped(outcomes);
    KeptAreSurvivors(outcomes);
    forall i: nat | i < |rows|
      ensures i in Survivors(outcomes) <==> !(header && i == 0) && AllReadable(m, entries, rows[i])
    {
      ValidRowIff(m, entries, rows[i]);
      AllGoodIff(m, entries, rows[i]);
    }
  }

  /** The k-th row kept was parsed from the k-th surviving row of the sheet. */
  lemma KeptRowWasParsed(m: Model, entries: seq<ColumnEntry>, header: bool, rows: seq<Sheets.Row>, k: nat)
    requires EntriesRooted(m.hierarchy, entries)
    requires k < |Survivors(ReadRows(m, entries, header, rows))|
    ensures var outcomes := ReadRows(m, entries, header, rows);
            && |Kept(outcomes)| == |Survivors(outcomes)|
            && ParseRow(m, entries, rows[Survivors(outcomes)[k]]) == ValidRow(Kept(outcomes)[k])
  {
    var outcomes := ReadRows(m, entries, header, rows);
    KeptAreSurvivors(outcomes);
    var i := Survivors(outcomes)[k];
    assert outcomes[i] == ReadRow(ParseSheetRow(m, entries, header, rows, i));
  }

  lemma NoneFailsIff(m: Model, entries: seq<ColumnEntry>, row: Sheets.Row)
    requires EntriesRooted(m.hierarchy, entries)
    ensures NoneFails(m, entries, row) <==> forall j :: 0 <= j < |entries| ==> !FailsToRead(m, entries[j], row)
  {
    forall j | 0 <= j < |entries|
      ensures Cell(m, entries[j], row).Failing? <==> FailsToRead(m, entries[j], row)
    {
      CellIff(m, entries[j], row, TextV(""));
    }
  }

  /** A crash is due to a cell after the header that fails to be read, also one in a row with other unreadable cells. */
  lemma CrashesIff(m: Model, entries: seq<ColumnEntry>, header: bool, rows: seq<Sheets.Row>)
    requires EntriesRooted(m.hierarchy, entries) && Distinct(EntryNames(entries))
    ensures NoneCrashes(ParseRows(m, entries, header, rows, |rows|)) <==>
            forall i, j :: 0 <= i < |rows| && 0 <= j < |entries| && FailsToRead(m, entries[j], rows[i]) ==>
              header && i == 0
  {
    var parses := ParseRows(m, entries, header, rows, |rows|);
    forall i | 0 <= i < |rows|
      ensures parses[i].CrashedRow? <==>
              !(header && i == 0) && exists j :: 0 <= j < |entries| && FailsToRead(m, entries[j], rows[i])
    {
      ValidRowIff(m, entries, rows[i]);
      NoneFailsIff(m, entries, rows[i]);
    }
  }

  lemma EntryColumn(entries: seq<ColumnEntry>, j: nat, rows: seq<map<string, Value>>)
    requires Distinct(EntryNames(entries)) && j < |entries| && RowsFit(TypesOf(entries), rows)
    ensures var table, name := TableFrom(TypesOf(entries), rows), entries[j].columnName;
            && table.numberOfRows == |rows| && table.columns.Keys == Elements(EntryNames(entries))
            && name in table.columns && table.columns[name].valueType == entries[j].valueType
            && |table.columns[name].values| == |rows|
            && forall k :: 0 <= k < |rows| ==> name in rows[k] && table.columns[name].values[k] == rows[k][name]
  {
    TypeOfEntry(entries, j);
    assert EntryNames(entries)[j] == entries[j].columnName;
  }

  /** Each column holds what was parsed from its cell in the rows read, under its type. */
  lemma TableCellsAreParsedCells(m: Model, entries: seq<ColumnEntry>, header: bool, rows: seq<Sheets.Row>, j: nat,
                                 k: nat)
    requires EntriesRooted(m.hierarchy, entries) && Distinct(EntryNames(entries)) && j < |entries|
    requires k < |Survivors(ReadRows(m, entries, header, rows))|
    ensures var read := Survivors(ReadRows(m, entries, header, rows));
            var table := ExpectedTable(m, entries, header, rows);
            && table.numberOfRows == |read|
            && table.columns.Keys == Elements(EntryNames(entries))
            && entries[j].columnName in table.columns
            && table.columns[entries[j].columnName].valueType == entries[j].valueType
            && |table.columns[entries[j].columnName].values| == |read|
            && Reads(m, entries[j], rows[read[k]], table.columns[entries[j].columnName].values[k])
  {
    KeptRowWasParsed(m, entries, header, rows, k);
    ReadRowsFit(m, entries, header, rows);
    EntryColumn(entries, j, Kept(ReadRows(m, entries, header, rows)));
    var row := rows[Survivors(ReadRows(m, entries, header, rows))[k]];
    var v := ParseRow(m, entries, row).values[entries[j].columnName];
    assert Reads(m, entries[j], row, v) by {
      ValidRowIff(m, entries, row);
      CellIff(m, entries[j], row, v);
    }
  }

  /** An interpreted table is rectangular and all its values are valid, as chains of transformers need it. */
  lemma InterpretedTableIsValid(m: Model, entries: seq<ColumnEntry>, header: bool, rows: seq<Sheets.Row>)
    requires EntriesRooted(m.hierarchy, entries)
    ensures ExpectedTable(m, entries, header, rows).Rectangular()
    ensures AllValid(m, ExpectedTable(m, entries, header, rows))
  {
    var read := ReadRows(m, entries, header, rows);
    ReadRowsFit(m, entries, header, rows);
    KeptAreSurvivors(read);
    TypesAreRooted(m.hierarchy, entries);
    forall k | 0 <= k < |Kept(read)|
      ensures forall name :: name in TypesOf(entries) ==>
                Verdict(m, TypesOf(entries)[name], Kept(read)[k][name]) == Some(true)
    {
      ReadRowFits(m, entries, rows[Survivors(read)[k]]);
    }
  }

  lemma {:induction false} TypesAreRooted(h: Hierarchy, entries: seq<ColumnEntry>)
    requires EntriesRooted(h, entries)
    ensures forall name :: name in TypesOf(entries) ==> Rooted(h, TypesOf(entries)[name])
    decreases |entries|
  {
    if |entries| > 0 { TypesAreRooted(h, entries[..|entries| - 1]); }
  }

  lemma EmptyTable(types: map<string, ValueType>)
    ensures var table := TableFrom(types, []);
            && table.numberOfRows == 0 && table.columns.Keys == types.Keys
            && forall name :: name in types ==> table.columns[name] == Column([], types[name])
  {
    forall name | name in types ensures ColumnOf(name, types[name], []) == Column([], types[name]) {}
  }

  lemma EqualColumns(columns: map<string, Column>, others: map<string, Column>)
    requires columns.Keys == others.Keys && forall name :: name in columns ==> columns[name] == others[name]
    ensures columns == others
  {}

  lemma EmptyTableOneMore(entries: seq<ColumnEntry>, i: nat)
    requires i < |entries|
    ensures var before := TableFrom(TypesOf(entries[..i]), []);
            TableFrom(TypesOf(entries[..i + 1]), [])
              == before.(columns := before.columns[entries[i].columnName := Column([], entries[i].valueType)])
  {
    var before, after := TypesOf(entries[..i]), TypesOf(entries[..i + 1]);
    assert after == before[entries[i].columnName := entries[i].valueType] by {
      assert entries[..i + 1][..i] == entries[..i];
    }
    EmptyTable(before);
    EmptyTable(after);
    EqualColumns(TableFrom(after, []).columns,
                 TableFrom(before, []).columns[entries[i].columnName := Column([], entries[i].valueType)]);
  }

  method AddColumns(entries: seq<ColumnEntry>) returns (table: Table)
    ensures fresh(table) && table.Valid() && table.State() == TableFrom(TypesOf(entries), [])
  {
    table := new Table(0);
    for i := 0 to |entries|
      invariant table.Valid() && fresh(table)
      invariant table.State() == TableFrom(TypesOf(entries[..i]), [])
    {
      EmptyTableOneMore(entries, i);
      table.AddColumn(entries[i].columnName, Column([], entries[i].valueType));
    }
    assert entries[..|entries|] == entries;
  }

  /** Adding a read row appends it, provided there is a column at all. */
  lemma AppendRow(types: map<string, ValueType>, rows: seq<map<string, Value>>, row: map<string, Value>)
    requires RowsFit(types, rows) && row.Keys == types.Keys
    ensures RowsFit(types, rows + [row])
    ensures TableFrom(types, rows + [row]).columns == Extended(TableFrom(types, rows).columns, row)
    ensures TableFrom(types, rows).columns.Keys == types.Keys
    ensures TableFrom(types, rows + [row]).numberOfRows
         == if types.Keys == {} then 0 else TableFrom(types, rows).numberOfRows + 1
  {
    forall name | name in types
      ensures ColumnOf(name, types[name], rows + [row]).values == ColumnOf(name, types[name], rows).values + [row[name]]
    {}
  }

  /** One row of the sheet: crashed, omitted, or added to the table. */
  method InterpretRow(m: Model, entries: seq<ColumnEntry>, row: Sheets.Row, table: Table, context: ExecutionContext,
                      ghost rows: seq<map<string, Value>>)
    returns (r: RowParse)
    requires m.WellScoped() && EntriesRooted(m.hierarchy, entries) && RowsFit(TypesOf(entries), rows)
    requires table.Valid() && table.State() == TableFrom(TypesOf(entries), rows)
    modifies table, context, context.evaluation
    ensures r == ParseRow(m, entries, row)
    ensures !r.CrashedRow? ==> Restored(context) && table.Valid()
    ensures r.OmittedRow? ==> table.State() == old(table.State())
    ensures r.ValidRow? ==>
              && RowsFit(TypesOf(entries), rows + [r.values])
              && table.State() == TableFrom(TypesOf(entries), rows + [r.values])
  {
    r := ConstructAndValidateTableRow(m, row, entries, context);
    if r.ValidRow? {
      ReadRowFits(m, entries, row);
      forall name | name in r.values ensures IsRepresentation(m.hierarchy, TypesOf(entries)[name], r.values[name]) {
        ValidIff(m, TypesOf(entries)[name], r.values[name]);
      }
      AppendRow(TypesOf(entries), rows, r.values);
      table.AddRow(m.hierarchy, r.values);
    }
  }

  lemma ParseRowsOneMore(m: Model, entries: seq<ColumnEntry>, header: bool, rows: seq<Sheets.Row>, n: nat)
    requires EntriesRooted(m.hierarchy, entries) && n < |rows|
    ensures ParseRows(m, entries, header, rows, n + 1)
         == ParseRows(m, entries, header, rows, n) + [ParseSheetRow(m, entries, header, rows, n)]
  {}

  lemma NoneCrashesOneMore(parses: seq<RowParse>, p: RowParse)
    ensures NoneCrashes(parses + [p]) <==> NoneCrashes(parses) && !p.CrashedRow?
  {
    var all := parses + [p];
    if NoneCrashes(all) {
      forall i | 0 <= i < |parses| ensures !parses[i].CrashedRow? { assert all[i] == parses[i]; }
      assert all[|parses|] == p;
    }
  }

  lemma KeepOneMore(parses: seq<RowParse>, p: RowParse)
    ensures Kept(ReadAll(parses + [p]))
         == if p.ValidRow? then Kept(ReadAll(parses)) + [p.values] else Kept(ReadAll(parses))
  {
    assert ReadAll(parses + [p])[..|parses|] == ReadAll(parses);
  }

  /** No row before number n crashed, and these values were read. */
  ghost predicate ReadSoFar(m: Model, entries: seq<ColumnEntry>, header: bool, rows: seq<Sheets.Row>, n: nat,
                            read: seq<map<string, Value>>)
    requires EntriesRooted(m.hierarchy, entries) && n <= |rows|
  {
    var parses := ParseRows(m, entries, header, rows, n);
    NoneCrashes(parses) && read == Kept(ReadAll(parses))
  }

  lemma ReadOneMore(m: Model, entries: seq<ColumnEntry>, header: bool, rows: seq<Sheets.Row>, n: nat,
                    read: seq<map<string, Value>>)
    requires EntriesRooted(m.hierarchy, entries) && n < |rows| && ReadSoFar(m, entries, header, rows, n, read)
    ensures var parse := ParseSheetRow(m, entries, header, rows, n);
            if parse.CrashedRow? then !NoneCrashes(ParseRows(m, entries, header, rows, |rows|))
            else ReadSoFar(m, entries, header, rows, n + 1, if parse.ValidRow? then read + [parse.values] else read)
  {
    ParseRowsOneMore(m, entries, header, rows, n);
    KeepOneMore(ParseRows(m, entries, header, rows, n), ParseSheetRow(m, entries, header, rows, n));
    NoneCrashesOneMore(ParseRows(m, entries, header, rows, n), ParseSheetRow(m, entries, header, rows, n));
    assert ParseRows(m, entries, header, rows, |rows|)[n] == ParseSheetRow(m, entries, header, rows, n);
  }

  lemma AllRead(m: Model, entries: seq<ColumnEntry>, header: bool, rows: seq<Sheets.Row>, read: seq<map<string, Value>>)
    requires EntriesRooted(m.hierarchy, entries) && ReadSoFar(m, entries, header, rows, |rows|, read)
    ensures NoneCrashes(ParseRows(m, entries, header, rows, |rows|))
    ensures RowsFit(TypesOf(entries), read)
    ensures TableFrom(TypesOf(entries), read) == ExpectedTable(m, entries, header, rows)
  {
    ReadRowsFit(m, entries, header, rows);
  }

  /** One iteration: the header is left out, and the values of a valid row are added to the table. */
  method InterpretNext(m: Model, entries: seq<ColumnEntry>, header: bool, rows: seq<Sheets.Row>, i: nat, table: Table,
                       context: ExecutionContext, ghost read: seq<map<string, Value>>)
    returns (crashed: bool, ghost after: seq<map<string, Value>>)
    requires m.WellScoped() && EntriesRooted(m.hierarchy, entries) && i < |rows|
    requires ReadSoFar(m, entries, header, rows, i, read) && RowsFit(TypesOf(entries), read)
    requires table.Valid() && table.State() == TableFrom(TypesOf(entries), read)
    modifies table, context, context.evaluation
    ensures crashed ==> !NoneCrashes(ParseRows(m, entries, header, rows, |rows|))
    ensures !crashed ==>
              && ReadSoFar(m, entries, header, rows, i + 1, after) && RowsFit(TypesOf(entries), after)
              && table.Valid() && table.State() == TableFrom(TypesOf(entries), after) && Restored(context)
  {
    ReadOneMore(m, entries, header, rows, i, read);
    if header && i == 0 { return false, read; }
    var row := InterpretRow(m, entries, rows[i], table, context, read);
    after := if row.ValidRow? then read + [row.values] else read;
    crashed := row.CrashedRow?;
  }

  /** None if a row crashed. */
  method ConstructAndValidateTable(m: Model, rows: seq<Sheets.Row>, header: bool, entries: seq<ColumnEntry>,
                                   context: ExecutionContext)
    returns (r: Option<Table>)
    requires m.WellScoped() && EntriesRooted(m.hierarchy, entries)
    modifies context, context.evaluation
    ensures r.Some? <==> NoneCrashes(ParseRows(m, entries, header, rows, |rows|))
    ensures r.Some? ==> fresh(r.value) && r.value.Valid() && r.value.State() == ExpectedTable(m, entries, header, rows)
    ensures r.Some? ==> Restored(context)
  {
    var table := AddColumns(entries);
    ghost var read: seq<map<string, Value>> := [];
    for i := 0 to |rows|
      invariant fresh(table) && table.Valid()
      invariant ReadSoFar(m, entries, header, rows, i, read) && RowsFit(TypesOf(entries), read)
      invariant table.State() == TableFrom(TypesOf(entries), read)
      invariant Restored(context)
    {
      var crashed;
      crashed, read := InterpretNext(m, entries, header, rows, i, table, context, read);
      if crashed { return None; }
    }
    AllRead(m, entries, header, rows, read);
    return Some(table);
  }

  // ---------------------------------------------------------------------------
  // Column entries, and the block
  // ---------------------------------------------------------------------------

  predicate Heads(row: Sheets.Row, i: nat, name: string) { i < |row| && row[i] == Sheets.Text(name) }

  /** The first header cell with the name. */
  function FindHeader(row: Sheets.Row, name: string, start: nat): (r: Option<nat>)
    ensures r.None? <==> forall i :: start <= i < |row| ==> !Heads(row, i, name)
    ensures r.Some? ==>
              start <= r.value && Heads(row, r.value, name) && forall i :: start <= i < r.value ==> !Heads(row, i, name)
    decreases |row| - start
  {
    if start >= |row| then None
    else if Heads(row, start, name) then Some(start)
    else FindHeader(row, name, start + 1)
  }

  function EntryFor(d: Assignment, headerRow: Sheets.Row): Option<ColumnEntry> {
    match FindHeader(headerRow, d.name, 0)
    case None => None
    case Some(i) => Some(ColumnEntry(i, d.name, d.valueType))
  }

  function EntriesFor(definitions: seq<Assignment>, headerRow: Sheets.Row): (r: seq<Option<ColumnEntry>>)
    ensures |r| == |definitions| && forall i :: 0 <= i < |r| ==> r[i] == EntryFor(definitions[i], headerRow)
  {
    seq(|definitions|, i requires 0 <= i < |definitions| => EntryFor(definitions[i], headerRow))
  }

  method DeriveColumnDefinitionEntriesFromHeader(definitions: seq<Assignment>, headerRow: Sheets.Row)
    returns (entries: seq<ColumnEntry>)
    ensures entries == Kept(EntriesFor(definitions, headerRow))
  {
    entries := [];
    for i := 0 to |definitions|
      invariant entries == Kept(EntriesFor(definitions[..i], headerRow))
    {
      assert EntriesFor(definitions[..i + 1], headerRow)[..i] == EntriesFor(definitions[..i], headerRow);
      var index := FindHeader(headerRow, definitions[i].name, 0);
      if index.None? { continue; }
      entries := entries + [ColumnEntry(index.value, definitions[i].name, definitions[i].valueType)];
    }
    assert definitions[..|definitions|] == definitions;
  }

  function DeriveColumnDefinitionEntriesWithoutHeader(definitions: seq<Assignment>): (r: seq<ColumnEntry>)
    ensures |r| == |definitions|
    ensures forall i :: 0 <= i < |r| ==> r[i] == ColumnEntry(i, definitions[i].name, definitions[i].valueType)
  {
    seq(|definitions|, i requires 0 <= i < |definitions| =>
      ColumnEntry(i, definitions[i].name, definitions[i].valueType))
  }

  function EntriesOf(definitions: seq<Assignment>, header: bool, rows: seq<Sheets.Row>): seq<ColumnEntry>
    requires header ==> |rows| > 0
  {
    if header then Kept(EntriesFor(definitions, rows[0])) else DeriveColumnDefinitionEntriesWithoutHeader(definitions)
  }

  ghost predicate DistinctDefinitions(definitions: seq<Assignment>) {
    forall i, j :: 0 <= i < j < |definitions| ==> definitions[i].name != definitions[j].name
  }

  /** The first cell of the row that holds the name. */
  ghost predicate FirstHeading(row: Sheets.Row, c: nat, name: string) {
    c < |row| && row[c] == Sheets.Text(name) && Sheets.Text(name) !in row[..c]
  }

  lemma FoundIsFirst(row: Sheets.Row, name: string)
    ensures var found := FindHeader(row, name, 0);
            if found.None? then Sheets.Text(name) !in row
            else FirstHeading(row, found.value, name) && Sheets.Text(name) in row
  {
    var found := FindHeader(row, name, 0);
    var n := if found.None? then |row| else found.value;
    forall i | 0 <= i < n ensures row[i] != Sheets.Text(name) { assert !Heads(row, i, name); }
  }

  /** Entries stem from the definitions in order; with a header, from those whose name it contains. */
  lemma EntriesFollowDefinitions(definitions: seq<Assignment>, header: bool, rows: seq<Sheets.Row>)
    returns (origin: seq<nat>)
    requires header ==> |rows| > 0
    ensures var entries := EntriesOf(definitions, header, rows);
            && |origin| == |entries|
            && (forall k :: 0 <= k < |entries| ==>
                  && origin[k] < |definitions|
                  && entries[k].columnName == definitions[origin[k]].name
                  && entries[k].valueType == definitions[origin[k]].valueType
                  && (if header then FirstHeading(rows[0], entries[k].sheetColumnIndex, entries[k].columnName)
                      else entries[k].sheetColumnIndex == k))
    ensures forall k, l :: 0 <= k < l < |origin| ==> origin[k] < origin[l]
    ensures forall i: nat :: i < |definitions| ==>
              (i in origin <==> header ==> Sheets.Text(definitions[i].name) in rows[0])
  {
    if header {
      var matches := EntriesFor(definitions, rows[0]);
      EveryEntrySurvivesOrIsDropped(matches);
      KeptAreSurvivors(matches);
      origin := Survivors(matches);
      forall i: nat | i < |definitions|
        ensures i in origin <==> Sheets.Text(definitions[i].name) in rows[0]
      {
        assert matches[i] == EntryFor(definitions[i], rows[0]);
        FoundIsFirst(rows[0], definitions[i].name);
      }
      forall k | 0 <= k < |origin|
        ensures FirstHeading(rows[0], Kept(matches)[k].sheetColumnIndex, definitions[origin[k]].name)
      {
        assert matches[origin[k]] == EntryFor(definitions[origin[k]], rows[0]);
        FoundIsFirst(rows[0], definitions[origin[k]].name);
      }
    } else {
      origin := seq(|definitions|, i => i);
      forall i: nat | i < |definitions| ensures i in origin { assert origin[i] == i; }
    }
  }

  lemma EntriesAreDistinct(h: Hierarchy, definitions: seq<Assignment>, header: bool, rows: seq<Sheets.Row>)
    requires header ==> |rows| > 0
    requires forall i :: 0 <= i < |definitions| ==> Rooted(h, definitions[i].valueType)
    ensures EntriesRooted(h, EntriesOf(definitions, header, rows))
    ensures DistinctDefinitions(definitions) ==> Distinct(EntryNames(EntriesOf(definitions, header, rows)))
  {
    var origin := EntriesFollowDefinitions(definitions, header, rows);
  }

  /** The first two are the errors the block reports; Crashed is a failed assertion. */
  datatype InterpreterResult = NoHeader | TooFewColumns | Crashed | Interpreted(table: Table)

  method DoExecute(m: Model, sheet: Sheets.Sheet, header: bool, definitions: seq<Assignment>, context: ExecutionContext)
    returns (r: InterpreterResult)
    requires m.WellScoped() && sheet.Valid()
    requires forall i :: 0 <= i < |definitions| ==> Rooted(m.hierarchy, definitions[i].valueType)
    modifies context, context.evaluation
    ensures r.NoHeader? <==> header && |sheet.data| == 0
    ensures r.TooFewColumns? <==> !header && sheet.numberOfColumns < |definitions|
    ensures !r.NoHeader? && !r.TooFewColumns? ==>
              var entries := EntriesOf(definitions, header, sheet.data);
              && EntriesRooted(m.hierarchy, entries)
              && (r.Interpreted? <==> NoneCrashes(ParseRows(m, entries, header, sheet.data, |sheet.data|)))
              && (r.Interpreted? ==> r.table.State() == ExpectedTable(m, entries, header, sheet.data))
    ensures r.Interpreted? ==> fresh(r.table) && r.table.Valid() && AllValid(m, r.table.State()) && Restored(context)
  {
    var entries: seq<ColumnEntry>;
    if header {
      if sheet.numberOfRows < 1 { return NoHeader; }
      entries := DeriveColumnDefinitionEntriesFromHeader(definitions, sheet.data[0]);
    } else {
      if sheet.numberOfColumns < |definitions| { return TooFewColumns; }
      entries := DeriveColumnDefinitionEntriesWithoutHeader(definitions);
    }
    EntriesAreDistinct(m.hierarchy, definitions, header, sheet.data);
    var table := ConstructAndValidateTable(m, sheet.data, header, entries, context);
    if table.None? { return Crashed; }
    InterpretedTableIsValid(m, entries, header, sheet.data);
    return Interpreted(table.value);
  }
}
