/** The block that adds a transformed column to a table, and chains of such blocks. */
module TableTransformer {
  import opened Common
  import opened ValueTypes
  import opened Expressions
  import opened TypeSoundness
  import opened Contexts
  import opened Validity
  import opened ConstraintTyping
  import opened Deletion
  import opened Selection
  import opened Tables
  import opened Transforms

  /** The properties of the block; validation makes the transform have one input port for each input column. */
  datatype Step = Step(inputColumns: seq<string>, outputColumn: string, transform: Transform) {
    ghost predicate Valid(m: Model) {
      && |inputColumns| == |transform.inputs| && transform.WellScoped()
      && Rooted(m.hierarchy, transform.output.valueType)
      && forall p :: p in transform.inputs ==> Rooted(m.hierarchy, p.valueType)
    }
  }

  predicate InputsExist(step: Step, columns: map<string, Column>, n: nat)
    requires n <= |step.inputColumns|
  {
    forall i :: 0 <= i < n ==> step.inputColumns[i] in columns
  }

  predicate InputsConvert(h: Hierarchy, step: Step, columns: map<string, Column>, n: nat)
    requires n <= |step.inputColumns| == |step.transform.inputs| && InputsExist(step, columns, |step.inputColumns|)
  {
    forall i :: 0 <= i < n ==>
      IsConvertibleTo(h, columns[step.inputColumns[i]].valueType, step.transform.inputs[i].valueType)
  }

  predicate Accepts(h: Hierarchy, step: Step, columns: map<string, Column>)
    requires |step.inputColumns| == |step.transform.inputs|
  {
    InputsExist(step, columns, |step.inputColumns|) && InputsConvert(h, step, columns, |step.inputColumns|)
  }

  /** The input columns under the names of the ports. */
  function ColumnsByPort(names: seq<string>, ports: seq<Port>, columns: map<string, Column>): map<string, Column>
    requires |names| == |ports| && forall i :: 0 <= i < |names| ==> names[i] in columns
    decreases |names|
  {
    if |names| == 0 then map[]
    else
      var n := |names| - 1;
      ColumnsByPort(names[..n], ports[..n], columns)[ports[n].name := columns[names[n]]]
  }

  lemma {:induction false} PortsHaveColumns(names: seq<string>, ports: seq<Port>, columns: map<string, Column>, p: Port)
    returns (i: nat)
    requires |names| == |ports| && forall i :: 0 <= i < |names| ==> names[i] in columns
    requires p in ports
    ensures i < |ports| && ports[i].name == p.name
    ensures p.name in ColumnsByPort(names, ports, columns)
         && ColumnsByPort(names, ports, columns)[p.name] == columns[names[i]]
    decreases |names|
  {
    var n := |names| - 1;
    if ports[n].name == p.name {
      i := n;
    } else {
      SplitLast(ports);
      i := PortsHaveColumns(names[..n], ports[..n], columns, p);
    }
  }

  /** The port columns of a rectangular table have a value in every row. */
  lemma PortColumnsHaveValues(step: Step, g: Grid)
    requires g.Rectangular() && |step.inputColumns| == |step.transform.inputs|
    requires InputsExist(step, g.columns, |step.inputColumns|)
    ensures HasValues(step.transform.inputs,
                      ColumnsByPort(step.inputColumns, step.transform.inputs, g.columns), g.numberOfRows)
  {
    forall p | p in step.transform.inputs
      ensures var columns := ColumnsByPort(step.inputColumns, step.transform.inputs, g.columns);
              p.name in columns && |columns[p.name].values| == g.numberOfRows
    {
      var i := PortsHaveColumns(step.inputColumns, step.transform.inputs, g.columns, p);
    }
  }

  // ---------------------------------------------------------------------------
  // Specification: one step
  // ---------------------------------------------------------------------------

  ghost function Outcome(m: Model, step: Step, g: Grid, row: nat): RowOutcome
    requires step.Valid(m) && g.Rectangular() && Accepts(m.hierarchy, step, g.columns) && row < g.numberOfRows
  {
    PortColumnsHaveValues(step, g);
    RowResult(m, step.transform, ColumnsByPort(step.inputColumns, step.transform.inputs, g.columns), row)
  }

  ghost function Outcomes(m: Model, step: Step, g: Grid): (r: seq<RowOutcome>)
    requires step.Valid(m) && g.Rectangular() && Accepts(m.hierarchy, step, g.columns)
    ensures |r| == g.numberOfRows && forall k :: 0 <= k < |r| ==> r[k] == Outcome(m, step, g, k)
  {
    PortColumnsHaveValues(step, g);
    RowResults(m, step.transform, ColumnsByPort(step.inputColumns, step.transform.inputs, g.columns), g.numberOfRows)
  }

  lemma OutcomesAreRowResults(m: Model, step: Step, g: Grid)
    requires step.Valid(m) && g.Rectangular() && Accepts(m.hierarchy, step, g.columns)
    ensures var columns := ColumnsByPort(step.inputColumns, step.transform.inputs, g.columns);
            && HasValues(step.transform.inputs, columns, g.numberOfRows)
            && Outcomes(m, step, g) == RowResults(m, step.transform, columns, g.numberOfRows)
  {
    PortColumnsHaveValues(step, g);
  }

  ghost function Values(m: Model, step: Step, g: Grid): (r: seq<Option<Value>>)
    requires step.Valid(m) && g.Rectangular() && Accepts(m.hierarchy, step, g.columns)
    ensures |r| == g.numberOfRows && forall k :: 0 <= k < |r| ==> r[k] == KeptValue(Outcome(m, step, g, k))
  {
    KeptValues(Outcomes(m, step, g))
  }

  /** The output table: dropped rows gone, output column added or overwritten. */
  ghost function Transformed(m: Model, step: Step, g: Grid): Grid
    requires step.Valid(m) && g.Rectangular() && Accepts(m.hierarchy, step, g.columns)
  {
    var values := Values(m, step, g);
    Grid(|Kept(values)|,
         WithoutRows(g.columns, Elements(Dropped(values)))[
           step.outputColumn := Column(Kept(values), step.transform.output.valueType)])
  }

  lemma DroppedAreDistinct(m: Model, step: Step, g: Grid)
    requires step.Valid(m) && g.Rectangular() && Accepts(m.hierarchy, step, g.columns)
    ensures Distinct(Dropped(Values(m, step, g)))
    ensures |Kept(Values(m, step, g))| + |Dropped(Values(m, step, g))| == g.numberOfRows
  {
    EveryEntrySurvivesOrIsDropped(Values(m, step, g));
  }

  /** The value that the expression of the transform has in a row. */
  ghost function RowEvaluation(m: Model, step: Step, g: Grid, row: nat): Expressions.Outcome
    requires step.Valid(m) && g.Rectangular() && Accepts(m.hierarchy, step, g.columns) && row < g.numberOfRows
  {
    PortColumnsHaveValues(step, g);
    var columns := ColumnsByPort(step.inputColumns, step.transform.inputs, g.columns);
    Evaluate(m.library, Env(PortValues(step.transform.inputs, columns, row), None), step.transform.expression, Lazy)
  }

  ghost predicate DistinctNames(ports: seq<Port>) {
    forall i, j :: 0 <= i < j < |ports| ==> ports[i].name != ports[j].name
  }

  /** Each port is bound to the value of its input column in this row. */
  ghost predicate BindsInputs(step: Step, g: Grid, row: nat, env: Env) {
    && g.Rectangular() && row < g.numberOfRows && |step.inputColumns| == |step.transform.inputs|
    && env.keyword.None?
    && forall i :: 0 <= i < |step.inputColumns| ==>
         && step.inputColumns[i] in g.columns
         && step.transform.inputs[i].name in env.variables
         && env.variables[step.transform.inputs[i].name] == g.columns[step.inputColumns[i]].values[row]
  }

  lemma PortValueIsCell(step: Step, g: Grid, row: nat, env: Env, x: string)
    requires BindsInputs(step, g, row, env) && x in Names(step.transform.inputs)
    requires DistinctNames(step.transform.inputs) && InputsExist(step, g.columns, |step.inputColumns|)
    ensures var columns := ColumnsByPort(step.inputColumns, step.transform.inputs, g.columns);
            && x in columns && row < |columns[x].values|
            && x in env.variables && env.variables[x] == columns[x].values[row]
  {
    var p :| p in step.transform.inputs && p.name == x;
    var i := PortsHaveColumns(step.inputColumns, step.transform.inputs, g.columns, p);
    assert step.inputColumns[i] in g.columns;
  }

  /** The expression is evaluated lazily, on the values of the input columns in that row. */
  lemma RowsAreEvaluatedOnTheirInputs(m: Model, step: Step, g: Grid, row: nat, env: Env)
    requires step.Valid(m) && g.Rectangular() && Accepts(m.hierarchy, step, g.columns) && row < g.numberOfRows
    requires DistinctNames(step.transform.inputs) && BindsInputs(step, g, row, env)
    ensures RowEvaluation(m, step, g, row) == Evaluate(m.library, env, step.transform.expression, Lazy)
  {
    PortColumnsHaveValues(step, g);
    var columns := ColumnsByPort(step.inputColumns, step.transform.inputs, g.columns);
    var bound := Env(PortValues(step.transform.inputs, columns, row), None);
    forall x | x in Names(step.transform.inputs)
      ensures x in bound.variables && x in env.variables && bound.variables[x] == env.variables[x]
    {
      PortValueIsCell(step, g, row, env, x);
    }
    OtherVariablesDoNotMatter(m.library, bound, env, Names(step.transform.inputs), step.transform.expression, Lazy);
  }

  /** A row has a value exactly if the expression has one that is valid for the output type. */
  lemma ValuesAreTheValidOnes(m: Model, step: Step, g: Grid, row: nat)
    requires step.Valid(m) && g.Rectangular() && Accepts(m.hierarchy, step, g.columns) && row < g.numberOfRows
    ensures var t, o := step.transform.output.valueType, RowEvaluation(m, step, g, row);
            Values(m, step, g)[row]
            == if o.Val? && IsRepresentation(m.hierarchy, t, o.v) && MeetsAll(m, t, o.v) then Some(o.v) else None
  {
    PortColumnsHaveValues(step, g);
    RowOutcomes(m, step.transform, ColumnsByPort(step.inputColumns, step.transform.inputs, g.columns), row);
    assert Values(m, step, g)[row] == KeptValue(Outcome(m, step, g, row));
  }

  /**
   * A row crashes exactly if its value represents the output type and a constraint gives no verdict on it,
   * or if it is invalid and not printable.
   */
  lemma CrashesIff(m: Model, step: Step, g: Grid, row: nat)
    requires step.Valid(m) && g.Rectangular() && Accepts(m.hierarchy, step, g.columns) && row < g.numberOfRows
    ensures var t, o := step.transform.output.valueType, RowEvaluation(m, step, g, row);
            Outcome(m, step, g, row).Crash? <==>
              && o.Val?
              && if IsRepresentation(m.hierarchy, t, o.v) && Fails(m, t, o.v) then true
                 else !(IsRepresentation(m.hierarchy, t, o.v) && MeetsAll(m, t, o.v))
                      && !(o.v.TextV? || o.v.NumV? || o.v.BoolV?)
  {
    PortColumnsHaveValues(step, g);
    RowOutcomes(m, step.transform, ColumnsByPort(step.inputColumns, step.transform.inputs, g.columns), row);
  }

  /**
   * The k-th row of the output is the k-th surviving row of the input with its transformed value
   * in the output column, where that column is added or overwritten.
   */
  lemma OutputRowsAreAligned(m: Model, step: Step, g: Grid, k: nat)
    requires step.Valid(m) && g.Rectangular() && Accepts(m.hierarchy, step, g.columns)
    requires k < Transformed(m, step, g).numberOfRows
    ensures var rows, out := Survivors(Values(m, step, g)), Transformed(m, step, g);
            && out.Rectangular() && k < |rows|
            && RowEvaluation(m, step, g, rows[k]).Val?
            && RowAt(out, k) == RowAt(g, rows[k])[step.outputColumn := RowEvaluation(m, step, g, rows[k]).v]
  {
    var values := Values(m, step, g);
    KeptAreSurvivors(values);
    SurvivingRowIsRead(g, values, k);
    AddedColumnIsRead(Grid(|Survivors(values)|, WithoutRows(g.columns, Elements(Dropped(values)))),
                      step.outputColumn, Column(Kept(values), step.transform.output.valueType), k);
    ValuesAreTheValidOnes(m, step, g, Survivors(values)[k]);
  }

  /** The output has the columns of the input with their types, and the output column with the type of its port. */
  lemma OutputTypes(m: Model, step: Step, g: Grid)
    requires step.Valid(m) && g.Rectangular() && Accepts(m.hierarchy, step, g.columns)
    ensures var out := Transformed(m, step, g).columns;
            && out.Keys == g.columns.Keys + {step.outputColumn}
            && forall name :: name in out ==>
                 out[name].valueType == if name == step.outputColumn then step.transform.output.valueType
                                        else g.columns[name].valueType
  {}

  lemma OutputIsRectangular(m: Model, step: Step, g: Grid)
    requires step.Valid(m) && g.Rectangular() && Accepts(m.hierarchy, step, g.columns)
    ensures Transformed(m, step, g).Rectangular()
    ensures forall name :: name in g.columns ==>
              |Without(g.columns[name].values, Elements(Dropped(Values(m, step, g))))|
                == Transformed(m, step, g).numberOfRows
  {
    var values := Values(m, step, g);
    KeptAreSurvivors(values);
    forall name | name in g.columns
      ensures |Without(g.columns[name].values, Elements(Dropped(values)))| == |Kept(values)|
    {
      DeletingDroppedLeavesSurvivors(g.columns[name].values, values);
    }
  }

  /** The surviving rows, in order, are those whose expression has a value that is valid for the output type. */
  lemma SurvivingRows(m: Model, step: Step, g: Grid)
    requires step.Valid(m) && g.Rectangular() && Accepts(m.hierarchy, step, g.columns)
    ensures var rows, t := Survivors(Values(m, step, g)), step.transform.output.valueType;
            && (forall i, j :: 0 <= i < j < |rows| ==> rows[i] < rows[j])
            && (forall row: nat :: row < g.numberOfRows ==>
                  (row in rows <==>
                     && RowEvaluation(m, step, g, row).Val?
                     && IsRepresentation(m.hierarchy, t, RowEvaluation(m, step, g, row).v)
                     && MeetsAll(m, t, RowEvaluation(m, step, g, row).v)))
  {
    var values := Values(m, step, g);
    EveryEntrySurvivesOrIsDropped(values);
    forall row: nat | row < g.numberOfRows
      ensures row in Survivors(values) <==>
                && RowEvaluation(m, step, g, row).Val?
                && IsRepresentation(m.hierarchy, step.transform.output.valueType, RowEvaluation(m, step, g, row).v)
                && MeetsAll(m, step.transform.output.valueType, RowEvaluation(m, step, g, row).v)
    {
      ValuesAreTheValidOnes(m, step, g, row);
    }
  }

  // ---------------------------------------------------------------------------
  // The block
  // ---------------------------------------------------------------------------

  /** The first input column that does not exist. */
  method CheckInputColumnsExist(step: Step, columns: map<string, Column>) returns (missing: Option<nat>)
    ensures missing.None? <==> InputsExist(step, columns, |step.inputColumns|)
    ensures missing.Some? ==>
              && missing.value < |step.inputColumns| && step.inputColumns[missing.value] !in columns
              && InputsExist(step, columns, missing.value)
  {
    for i := 0 to |step.inputColumns|
      invariant InputsExist(step, columns, i)
    {
      if step.inputColumns[i] !in columns { return Some(i); }
    }
    return None;
  }

  datatype Match = Columns(byPort: map<string, Column>) | Mismatch(index: nat)

  lemma ColumnsByPortOneMore(names: seq<string>, ports: seq<Port>, columns: map<string, Column>, i: nat)
    requires |names| == |ports| && i < |names| && forall i :: 0 <= i < |names| ==> names[i] in columns
    ensures ColumnsByPort(names[..i + 1], ports[..i + 1], columns)
         == ColumnsByPort(names[..i], ports[..i], columns)[ports[i].name := columns[names[i]]]
  {
    assert names[..i + 1][..i] == names[..i] && ports[..i + 1][..i] == ports[..i];
  }

  /** The columns by port, or the first input column whose type does not convert to that of its port. */
  method CheckInputColumnsMatchTransformInputTypes(h: Hierarchy, step: Step, columns: map<string, Column>)
    returns (r: Match)
    requires |step.inputColumns| == |step.transform.inputs| && InputsExist(step, columns, |step.inputColumns|)
    ensures r.Columns? <==> InputsConvert(h, step, columns, |step.inputColumns|)
    ensures r.Columns? ==> r.byPort == ColumnsByPort(step.inputColumns, step.transform.inputs, columns)
    ensures r.Mismatch? ==>
              && r.index < |step.inputColumns| && InputsConvert(h, step, columns, r.index)
              && !IsConvertibleTo(h, columns[step.inputColumns[r.index]].valueType,
                                  step.transform.inputs[r.index].valueType)
  {
    var names, ports := step.inputColumns, step.transform.inputs;
    var byPort: map<string, Column> := map[];
    for i := 0 to |names|
      invariant InputsConvert(h, step, columns, i)
      invariant byPort == ColumnsByPort(names[..i], ports[..i], columns)
    {
      if !IsConvertibleTo(h, columns[names[i]].valueType, ports[i].valueType) { return Mismatch(i); }
      ColumnsByPortOneMore(names, ports, columns, i);
      byPort := byPort[ports[i].name := columns[names[i]]];
    }
    assert names[..|names|] == names && ports[..|ports|] == ports;
    return Columns(byPort);
  }

  method CreateOutputTable(input: Table, result: TransformResult, outputColumn: string) returns (output: Table)
    requires input.Valid() && Distinct(result.rowsToDelete)
    requires forall r :: r in result.rowsToDelete ==> 0 <= r < input.numberOfRows
    requires |result.resultingColumn.values| + |result.rowsToDelete| == input.numberOfRows
    requires forall name :: name in input.columns ==>
               |Without(input.columns[name].values, Elements(result.rowsToDelete))| == |result.resultingColumn.values|
    ensures fresh(output) && output.Valid()
    ensures output.State() == Grid(
              |result.resultingColumn.values|,
              WithoutRows(input.columns, Elements(result.rowsToDelete))[outputColumn := result.resultingColumn])
  {
    output := input.Clone();
    DroppingDistinctRows(input.State(), result.rowsToDelete);
    output.DropRows(result.rowsToDelete);
    output.AddColumn(outputColumn, result.resultingColumn);
  }

  /** What the transform returned fits the input, and makes the specified output of it. */
  method CreateStepOutput(m: Model, step: Step, input: Table, result: TransformResult) returns (output: Table)
    requires step.Valid(m) && input.Valid() && Accepts(m.hierarchy, step, input.columns)
    requires result == Collected(Outcomes(m, step, input.State()), step.transform.output.valueType)
    ensures fresh(output) && output.Valid() && output.State() == Transformed(m, step, input.State())
  {
    DroppedAreDistinct(m, step, input.State());
    OutputIsRectangular(m, step, input.State());
    output := CreateOutputTable(input, result, step.outputColumn);
  }

  datatype StepError = MissingColumn(index: nat) | NotConvertible(index: nat)

  /** Crashed is a failed assertion inside the transform. */
  datatype StepResult = Output(table: Table) | Failure(error: StepError) | Crashed

  method DoExecute(m: Model, step: Step, input: Table, context: ExecutionContext) returns (r: StepResult)
    requires m.WellScoped() && step.Valid(m) && input.Valid() && context.evaluation.valueKeywordValue.None?
    modifies context, context.evaluation
    ensures r.Failure? <==> !Accepts(m.hierarchy, step, input.columns)
    ensures r.Failure? && r.error.MissingColumn? ==>
              && r.error.index < |step.inputColumns| && InputsExist(step, input.columns, r.error.index)
              && step.inputColumns[r.error.index] !in input.columns
    ensures r.Failure? && r.error.NotConvertible? ==>
              && r.error.index < |step.inputColumns| && InputsExist(step, input.columns, |step.inputColumns|)
              && InputsConvert(m.hierarchy, step, input.columns, r.error.index)
              && !InputsConvert(m.hierarchy, step, input.columns, r.error.index + 1)
    ensures r.Crashed? <==>
              && Accepts(m.hierarchy, step, input.columns)
              && exists k: nat :: k < input.numberOfRows && Outcome(m, step, input.State(), k).Crash?
    ensures r.Output? ==> fresh(r.table) && r.table.Valid() && r.table.State() == Transformed(m, step, input.State())
    ensures !r.Crashed? ==> context.stack == old(context.stack) && context.evaluation.valueKeywordValue.None?
    ensures input.State() == old(input.State())
  {
    var missing := CheckInputColumnsExist(step, input.columns);
    if missing.Some? { return Failure(MissingColumn(missing.value)); }
    var matching := CheckInputColumnsMatchTransformInputTypes(m.hierarchy, step, input.columns);
    if matching.Mismatch? { return Failure(NotConvertible(matching.index)); }
    OutcomesAreRowResults(m, step, input.State());
    var transformed := ExecuteTransform(m, step.transform, matching.byPort, input.numberOfRows, context);
    if transformed.None? {
      ghost var row :| 0 <= row < input.numberOfRows && Outcomes(m, step, input.State())[row].Crash?;
      assert Outcome(m, step, input.State(), row).Crash?;
      return Crashed;
    }
    var output := CreateStepOutput(m, step, input, transformed.value);
    return Output(output);
  }

  // ---------------------------------------------------------------------------
  // Typing, for one step and for chains
  // ---------------------------------------------------------------------------

  lemma KeptValuesAreValid(m: Model, step: Step, g: Grid, row: nat)
    requires step.Valid(m) && g.Rectangular() && Accepts(m.hierarchy, step, g.columns) && row < g.numberOfRows
    ensures Values(m, step, g)[row].Some? ==>
              Verdict(m, step.transform.output.valueType, Values(m, step, g)[row].value) == Some(true)
  {
    assert Values(m, step, g)[row] == KeptValue(Outcome(m, step, g, row));
  }

  lemma OutputColumnIsValid(m: Model, step: Step, g: Grid)
    requires step.Valid(m) && g.Rectangular() && Accepts(m.hierarchy, step, g.columns)
    ensures ColumnValid(m, Column(Kept(Values(m, step, g)), step.transform.output.valueType))
  {
    var values := Values(m, step, g);
    forall k | 0 <= k < |Kept(values)|
      ensures Verdict(m, step.transform.output.valueType, Kept(values)[k]) == Some(true)
    {
      KeptAreSurvivors(values);
      KeptValuesAreValid(m, step, g, Survivors(values)[k]);
    }
  }

  lemma RemainingColumnsAreValid(m: Model, c: Column, values: seq<Option<Value>>)
    requires Rooted(m.hierarchy, c.valueType) && ColumnValid(m, c) && |c.values| == |values|
    ensures ColumnValid(m, c.(values := Without(c.values, Elements(Dropped(values)))))
  {
    DeletingDroppedLeavesSurvivors(c.values, values);
  }

  /** A step keeps a table rectangular and all its values valid. */
  lemma StepKeepsValues(m: Model, step: Step, g: Grid)
    requires step.Valid(m) && g.Rectangular() && Accepts(m.hierarchy, step, g.columns) && AllValid(m, g)
    ensures Transformed(m, step, g).Rectangular() && AllValid(m, Transformed(m, step, g))
    ensures Transformed(m, step, g).numberOfRows <= g.numberOfRows
  {
    OutputIsRectangular(m, step, g);
    OutputColumnIsValid(m, step, g);
    forall name | name in g.columns
      ensures ColumnValid(m, g.columns[name].(values :=
                Without(g.columns[name].values, Elements(Dropped(Values(m, step, g))))))
    {
      RemainingColumnsAreValid(m, g.columns[name], Values(m, step, g));
    }
  }

  /** A chain of blocks; None if some block rejects its input or crashes. */
  ghost function Chain(m: Model, steps: seq<Step>, g: Grid): (r: Option<Grid>)
    requires g.Rectangular() && forall i :: 0 <= i < |steps| ==> steps[i].Valid(m)
    decreases |steps|
  {
    if |steps| == 0 then Some(g)
    else
      assert steps[0].Valid(m);
      if !Accepts(m.hierarchy, steps[0], g.columns) then None
      else if exists k: nat :: k < g.numberOfRows && Outcome(m, steps[0], g, k).Crash? then None
      else
        OutputIsRectangular(m, steps[0], g);
        Chain(m, steps[1..], Transformed(m, steps[0], g))
  }

  /** A step keeps a table well-typed, whether or not its values are valid. */
  lemma StepKeepsTypes(m: Model, step: Step, g: Grid)
    requires step.Valid(m) && g.Rectangular() && Accepts(m.hierarchy, step, g.columns) && g.WellTyped(m.hierarchy)
    ensures Transformed(m, step, g).WellTyped(m.hierarchy)
  {
    var out, values := Transformed(m, step, g), Values(m, step, g);
    OutputColumnIsValid(m, step, g);
    forall name, k | name in out.columns && 0 <= k < |out.columns[name].values|
      ensures IsRepresentation(m.hierarchy, out.columns[name].valueType, out.columns[name].values[k])
    {
      if name == step.outputColumn {
        ValidIff(m, out.columns[name].valueType, out.columns[name].values[k]);
      } else {
        DeletingDroppedLeavesSurvivors(g.columns[name].values, values);
      }
    }
  }

  /**
   * However long the chain, its table is rectangular, no longer than the first and has all its columns;
   * it is well-typed if the first one is, and all its values are valid if those of the first one are.
   */
  lemma {:induction false} ChainsKeepTablesWellTyped(m: Model, steps: seq<Step>, g: Grid)
    requires g.Rectangular() && forall i :: 0 <= i < |steps| ==> steps[i].Valid(m)
    requires Chain(m, steps, g).Some?
    ensures var last := Chain(m, steps, g).value;
            && last.Rectangular() && last.numberOfRows <= g.numberOfRows && g.columns.Keys <= last.columns.Keys
            && (g.WellTyped(m.hierarchy) ==> last.WellTyped(m.hierarchy))
            && (AllValid(m, g) ==> AllValid(m, last) && last.WellTyped(m.hierarchy))
    decreases |steps|
  {
    if AllValid(m, g) { AllValidIsWellTyped(m, g); }
    if |steps| > 0 {
      OutputIsRectangular(m, steps[0], g);
      if g.WellTyped(m.hierarchy) { StepKeepsTypes(m, steps[0], g); }
      if AllValid(m, g) { StepKeepsValues(m, steps[0], g); }
      ChainsKeepTablesWellTyped(m, steps[1..], Transformed(m, steps[0], g));
    }
  }

  /** The row of the first table that each row of the last one comes from. */
  ghost function Origins(m: Model, steps: seq<Step>, g: Grid): seq<nat>
    requires g.Rectangular() && forall i :: 0 <= i < |steps| ==> steps[i].Valid(m)
    requires Chain(m, steps, g).Some?
    decreases |steps|
  {
    if |steps| == 0 then seq(g.numberOfRows, k => k)
    else
      OutputIsRectangular(m, steps[0], g);
      Through(Survivors(Values(m, steps[0], g)), Origins(m, steps[1..], Transformed(m, steps[0], g)))
  }

  /** The entries of the first list at the positions in the second one. */
  function Through(rows: seq<nat>, positions: seq<nat>): (r: seq<nat>)
    ensures |r| == |positions|
    ensures forall k :: 0 <= k < |r| ==> r[k] == if positions[k] < |rows| then rows[positions[k]] else 0
  {
    seq(|positions|, k requires 0 <= k < |positions| => if positions[k] < |rows| then rows[positions[k]] else 0)
  }

  ghost predicate Increasing(rows: seq<nat>, bound: nat) {
    && (forall i, j :: 0 <= i < j < |rows| ==> rows[i] < rows[j])
    && (forall i :: 0 <= i < |rows| ==> rows[i] < bound)
  }

  lemma ThroughIncreasing(rows: seq<nat>, bound: nat, positions: seq<nat>)
    requires Increasing(rows, bound) && Increasing(positions, |rows|)
    ensures Increasing(Through(rows, positions), bound)
  {}

  /** The column has kept its type, and its values are those of the rows they come from. */
  ghost predicate CarriedOver(before: Column, after: Column, origins: seq<nat>) {
    && after.valueType == before.valueType && |after.values| == |origins|
    && forall k :: 0 <= k < |origins| ==> origins[k] < |before.values| && after.values[k] == before.values[origins[k]]
  }

  lemma CarriedThrough(first: Column, second: Column, third: Column, rows: seq<nat>, positions: seq<nat>)
    requires CarriedOver(first, second, rows) && CarriedOver(second, third, positions)
    ensures CarriedOver(first, third, Through(rows, positions))
  {}

  lemma StepCarriesColumns(m: Model, step: Step, g: Grid, name: string)
    requires step.Valid(m) && g.Rectangular() && Accepts(m.hierarchy, step, g.columns)
    requires name in g.columns && name != step.outputColumn
    ensures name in Transformed(m, step, g).columns
    ensures CarriedOver(g.columns[name], Transformed(m, step, g).columns[name], Survivors(Values(m, step, g)))
  {
    DeletingDroppedLeavesSurvivors(g.columns[name].values, Values(m, step, g));
  }

  lemma SurvivorsIncrease(m: Model, step: Step, g: Grid)
    requires step.Valid(m) && g.Rectangular() && Accepts(m.hierarchy, step, g.columns)
    ensures Increasing(Survivors(Values(m, step, g)), g.numberOfRows)
    ensures |Survivors(Values(m, step, g))| == Transformed(m, step, g).numberOfRows
  {
    EveryEntrySurvivesOrIsDropped(Values(m, step, g));
    KeptAreSurvivors(Values(m, step, g));
  }

  ghost predicate NeverOverwritten(steps: seq<Step>, name: string) {
    forall i :: 0 <= i < |steps| ==> steps[i].outputColumn != name
  }

  /** Columns that the first step and the later ones carry over are carried over by all of them. */
  lemma CarriedOnwards(steps: seq<Step>, g: Grid, next: Grid, last: Grid, rows: seq<nat>, positions: seq<nat>)
    requires |steps| > 0
    requires forall name :: name in g.columns && NeverOverwritten(steps, name) ==>
               && name in next.columns && CarriedOver(g.columns[name], next.columns[name], rows)
               && NeverOverwritten(steps[1..], name)
    requires forall name :: name in next.columns && NeverOverwritten(steps[1..], name) ==>
               name in last.columns && CarriedOver(next.columns[name], last.columns[name], positions)
    ensures forall name :: name in g.columns && NeverOverwritten(steps, name) ==>
              name in last.columns && CarriedOver(g.columns[name], last.columns[name], Through(rows, positions))
  {
    forall name | name in g.columns && NeverOverwritten(steps, name)
      ensures name in last.columns && CarriedOver(g.columns[name], last.columns[name], Through(rows, positions))
    {
      CarriedThrough(g.columns[name], next.columns[name], last.columns[name], rows, positions);
    }
  }

  /**
   * Chains keep rows together: the rows of the last table come from rows of the first one, in the same
   * order, and hold what these hold in all columns that no block of the chain overwrites.
   */
  lemma {:induction false} ChainsKeepRowsTogether(m: Model, steps: seq<Step>, g: Grid)
    requires g.Rectangular() && forall i :: 0 <= i < |steps| ==> steps[i].Valid(m)
    requires Chain(m, steps, g).Some?
    ensures var last, origins := Chain(m, steps, g).value, Origins(m, steps, g);
            && |origins| == last.numberOfRows && Increasing(origins, g.numberOfRows)
            && forall name :: name in g.columns && NeverOverwritten(steps, name) ==>
                 name in last.columns && CarriedOver(g.columns[name], last.columns[name], origins)
    decreases |steps|
  {
    if |steps| > 0 {
      var next, rows := Transformed(m, steps[0], g), Survivors(Values(m, steps[0], g));
      OutputIsRectangular(m, steps[0], g);
      SurvivorsIncrease(m, steps[0], g);
      ChainsKeepRowsTogether(m, steps[1..], next);
      ThroughIncreasing(rows, g.numberOfRows, Origins(m, steps[1..], next));
      forall name | name in g.columns && NeverOverwritten(steps, name)
        ensures name in next.columns && CarriedOver(g.columns[name], next.columns[name], rows)
        ensures NeverOverwritten(steps[1..], name)
      {
        StepCarriesColumns(m, steps[0], g, name);
      }
      CarriedOnwards(steps, g, next, Chain(m, steps, g).value, rows, Origins(m, steps[1..], next));
    }
  }

  // ---------------------------------------------------------------------------
  // What the static types promise for a row
  // ---------------------------------------------------------------------------

  function PortTypes(ports: seq<Port>): (r: map<string, ValueType>)
    ensures r.Keys == Names(ports)
  {
    if |ports| == 0 then map[]
    else
      var n := |ports| - 1;
      SplitLast(ports);
      assert Names(ports) == Names(ports[..n]) + {ports[n].name};
      PortTypes(ports[..n])[ports[n].name := ports[n].valueType]
  }

  lemma {:induction false} PortTypeOf(ports: seq<Port>, name: string) returns (i: nat)
    requires name in Names(ports)
    ensures i < |ports| && ports[i].name == name && PortTypes(ports)[name] == ports[i].valueType
    decreases |ports|
  {
    var n := |ports| - 1;
    SplitLast(ports);
    if ports[n].name == name {
      i := n;
    } else {
      i := PortTypeOf(ports[..n], name);
    }
  }

  /** The types that inference assigns to the ports when it checks the expression of the transform. */
  ghost function PortContext(m: Model, ports: seq<Port>): (ctx: TypingContext)
    requires forall p :: p in ports ==> Rooted(m.hierarchy, p.valueType)
    ensures ctx.Valid()
  {
    assert forall x :: x in Names(ports) ==> Rooted(m.hierarchy, PortTypes(ports)[x]) by {
      forall x | x in Names(ports) ensures Rooted(m.hierarchy, PortTypes(ports)[x]) {
        var i := PortTypeOf(ports, x);
        assert ports[i] in ports;
      }
    }
    TypingContext(m.hierarchy, PortTypes(ports), None)
  }

  lemma AcceptedPortValue(m: Model, step: Step, g: Grid, row: nat, x: string)
    requires step.Valid(m) && g.Rectangular() && Accepts(m.hierarchy, step, g.columns) && g.WellTyped(m.hierarchy)
    requires DistinctNames(step.transform.inputs) && row < g.numberOfRows && x in Names(step.transform.inputs)
    ensures var columns := ColumnsByPort(step.inputColumns, step.transform.inputs, g.columns);
            && x in columns && row < |columns[x].values|
            && IsRepresentation(m.hierarchy, PortTypes(step.transform.inputs)[x], columns[x].values[row])
  {
    var ports := step.transform.inputs;
    var p :| p in ports && p.name == x;
    var j := PortTypeOf(ports, x);
    var i := PortsHaveColumns(step.inputColumns, ports, g.columns, p);
    assert i == j;
    var column := g.columns[step.inputColumns[i]];
    ConversionKeepsRepresentation(m.hierarchy, column.valueType, ports[i].valueType, column.values[row]);
  }

  /** Accepted input columns hand the expression values of its port types. */
  lemma AcceptedInputsConform(m: Model, step: Step, g: Grid, row: nat)
    requires step.Valid(m) && g.Rectangular() && Accepts(m.hierarchy, step, g.columns) && g.WellTyped(m.hierarchy)
    requires DistinctNames(step.transform.inputs) && row < g.numberOfRows
    ensures var columns := ColumnsByPort(step.inputColumns, step.transform.inputs, g.columns);
            && HasValues(step.transform.inputs, columns, row + 1)
            && Conforms(PortContext(m, step.transform.inputs),
                        Env(PortValues(step.transform.inputs, columns, row), None))
  {
    PortColumnsHaveValues(step, g);
    forall x | x in Names(step.transform.inputs)
      ensures var columns := ColumnsByPort(step.inputColumns, step.transform.inputs, g.columns);
              && x in columns && row < |columns[x].values|
              && IsRepresentation(m.hierarchy, PortTypes(step.transform.inputs)[x], columns[x].values[row])
    {
      AcceptedPortValue(m, step, g, row, x);
    }
  }

  /** What validation of a transform promises: distinct ports, and an expression of the output type. */
  ghost predicate TypedTransform(m: Model, t: Transform)
    requires forall p :: p in t.inputs ==> Rooted(m.hierarchy, p.valueType)
  {
    var inferred := Infer(PortContext(m, t.inputs), t.expression);
    DistinctNames(t.inputs) && inferred.Some? && IsConvertibleTo(m.hierarchy, inferred.value, t.output.valueType)
  }

  /** A typed expression fails no operand guard, and its value represents the output type. */
  lemma TypedRowsEvaluate(m: Model, step: Step, g: Grid, row: nat)
    requires step.Valid(m) && g.Rectangular() && Accepts(m.hierarchy, step, g.columns) && g.WellTyped(m.hierarchy)
    requires row < g.numberOfRows && TypedTransform(m, step.transform)
    ensures Sound(m.hierarchy, step.transform.output.valueType, RowEvaluation(m, step, g, row))
  {
    AcceptedInputsConform(m, step, g, row);
    var ctx := PortContext(m, step.transform.inputs);
    var columns := ColumnsByPort(step.inputColumns, step.transform.inputs, g.columns);
    var env := Env(PortValues(step.transform.inputs, columns, row), None);
    var inferred := Infer(ctx, step.transform.expression).value;
    var result := RowEvaluation(m, step, g, row);
    InferenceIsSound(m.library, ctx, env, step.transform.expression, Lazy);
    if result.Val? {
      ConversionKeepsRepresentation(m.hierarchy, inferred, step.transform.output.valueType, result.v);
    }
  }

  /**
   * In a validated model a row crashes exactly if its value meets a constraint that is undefined or
   * unparsable for it, or if it is invalid and of a type that cannot be printed. In all other cases
   * it is kept or dropped; in particular no operand guard ever fails.
   */
  lemma TypedRowsCrashIff(m: Model, step: Step, g: Grid, row: nat)
    requires step.Valid(m) && g.Rectangular() && Accepts(m.hierarchy, step, g.columns) && g.WellTyped(m.hierarchy)
    requires row < g.numberOfRows && TypedTransform(m, step.transform) && TypedConstraints(m)
    ensures !RowEvaluation(m, step, g, row).AssertionFailed?
    ensures var t, result := step.transform.output.valueType, RowEvaluation(m, step, g, row);
            Outcome(m, step, g, row).Crash? <==>
              && result.Val?
              && ((exists n: nat, k: nat :: UndecidedAt(m, t, result.v, n, k))
                  || (Verdict(m, t, result.v) == Some(false) && !PrintableRoot(m.hierarchy, t)))
  {
    TypedRowsEvaluate(m, step, g, row);
    var result := RowEvaluation(m, step, g, row);
    if result.Val? {
      TypedVerdictFailsIff(m, step.transform.output.valueType, result.v);
      PrintableValues(m.hierarchy, step.transform.output.valueType, result.v);
    }
  }

  /** The chain of the type ends in text, a number or a boolean. */
  predicate PrintableRoot(h: Hierarchy, t: ValueType)
    requires Rooted(h, t)
    decreases Height(h, t)
  {
    if t.AtomicType? then PrintableRoot(h, GetSupertype(h, t).value)
    else t.TextType? || t.BooleanType? || t.DecimalType? || t.IntegerType?
  }

  lemma {:induction false} PrintableValues(h: Hierarchy, t: ValueType, v: Value)
    requires Rooted(h, t) && IsRepresentation(h, t, v)
    ensures Printable(v) <==> PrintableRoot(h, t)
    decreases Height(h, t)
  {
    if t.AtomicType? { PrintableValues(h, GetSupertype(h, t).value, v); }
  }
}
