/**
 * Applying a transform to every row of a table: rows whose value cannot be computed or is
 * invalid are dropped, and the others get the value in the output column.
 */
module Transforms {
  import opened Common
  import opened ValueTypes
  import opened Expressions
  import opened Contexts
  import opened Validity
  import opened Selection
  import opened Tables

  datatype Port = Port(name: string, valueType: ValueType)

  /** A transform with its input ports, its one output port and the expression assigned to that. */
  datatype Transform = Transform(id: nat, inputs: seq<Port>, output: Port, expression: Expression) {
    /** Linking lets the expression refer to the input ports only. */
    ghost predicate WellScoped() { MentionsOnly(expression, Names(inputs)) }
  }

  function Names(ports: seq<Port>): set<string> { set p | p in ports :: p.name }

  // ---------------------------------------------------------------------------
  // Specification: one row
  // ---------------------------------------------------------------------------

  /** Every port has a column with a value in each row. */
  predicate HasValues(ports: seq<Port>, columns: map<string, Column>, numberOfRows: nat) {
    forall p :: p in ports ==> p.name in columns && |columns[p.name].values| >= numberOfRows
  }

  function PortValues(ports: seq<Port>, columns: map<string, Column>, row: nat): map<string, Value>
    requires HasValues(ports, columns, row + 1)
  {
    map name | name in Names(ports) :: columns[name].values[row]
  }

  datatype RowOutcome = Keep(v: Value) | Drop | Crash

  predicate Printable(v: Value) { v.TextV? || v.BoolV? || v.NumV? }

  /** Thrown errors of the expression are caught; those of the validity check are not. */
  function RowResult(m: Model, t: Transform, columns: map<string, Column>, row: nat): RowOutcome
    requires Rooted(m.hierarchy, t.output.valueType) && HasValues(t.inputs, columns, row + 1)
  {
    var result := Evaluate(m.library, Env(PortValues(t.inputs, columns, row), None), t.expression, Lazy);
    if !result.Val? then Drop
    else
      match Verdict(m, t.output.valueType, result.v)
      case None => Crash
      case Some(true) => Keep(result.v)
      case Some(false) => if Printable(result.v) then Drop else Crash
  }

  /**
   * A row is kept exactly if its expression has a value that is valid for the output type, and crashes
   * exactly if a constraint gives no verdict on its value, or if that is invalid and not printable.
   */
  lemma RowOutcomes(m: Model, t: Transform, columns: map<string, Column>, row: nat)
    requires Rooted(m.hierarchy, t.output.valueType) && HasValues(t.inputs, columns, row + 1)
    ensures var o := Evaluate(m.library, Env(PortValues(t.inputs, columns, row), None), t.expression, Lazy);
            var u, result := t.output.valueType, RowResult(m, t, columns, row);
            if !o.Val? then result == Drop
            else
              var represents := IsRepresentation(m.hierarchy, u, o.v);
              && (represents && MeetsAll(m, u, o.v) <==> result == Keep(o.v))
              && (result.Keep? ==> result.v == o.v)
              && (result.Crash? <==>
                    if represents && Fails(m, u, o.v) then true
                    else !(represents && MeetsAll(m, u, o.v)) && !(o.v.TextV? || o.v.NumV? || o.v.BoolV?))
  {
    var o := Evaluate(m.library, Env(PortValues(t.inputs, columns, row), None), t.expression, Lazy);
    if o.Val? {
      ValidIff(m, t.output.valueType, o.v);
      VerdictFailsIff(m, t.output.valueType, o.v);
    }
  }

  function KeptValue(o: RowOutcome): Option<Value> { if o.Keep? then Some(o.v) else None }

  function RowResults(m: Model, t: Transform, columns: map<string, Column>, n: nat): (r: seq<RowOutcome>)
    requires Rooted(m.hierarchy, t.output.valueType) && HasValues(t.inputs, columns, n)
    ensures |r| == n && forall k :: 0 <= k < n ==> r[k] == RowResult(m, t, columns, k)
  {
    seq(n, k requires 0 <= k < n => RowResult(m, t, columns, k))
  }

  lemma RowResultsOneMore(m: Model, t: Transform, columns: map<string, Column>, n: nat)
    requires Rooted(m.hierarchy, t.output.valueType) && HasValues(t.inputs, columns, n + 1)
    ensures HasValues(t.inputs, columns, n)
    ensures RowResults(m, t, columns, n + 1) == RowResults(m, t, columns, n) + [RowResult(m, t, columns, n)]
  {}

  function KeptValues(results: seq<RowOutcome>): (r: seq<Option<Value>>)
    ensures |r| == |results| && forall k :: 0 <= k < |r| ==> r[k] == KeptValue(results[k])
  {
    seq(|results|, k requires 0 <= k < |results| => KeptValue(results[k]))
  }

  predicate NoneCrashes(results: seq<RowOutcome>) { forall k :: 0 <= k < |results| ==> !results[k].Crash? }

  /** The new column and the rows to delete that a list of outcomes amounts to. */
  function Collected(results: seq<RowOutcome>, outputType: ValueType): TransformResult {
    TransformResult(Column(Kept(KeptValues(results)), outputType), Dropped(KeptValues(results)))
  }

  // ---------------------------------------------------------------------------
  // The loop over the rows
  // ---------------------------------------------------------------------------

  datatype TransformResult = TransformResult(resultingColumn: Column, rowsToDelete: seq<int>)

  lemma NamesOfPrefix(ports: seq<Port>, i: nat)
    requires i < |ports|
    ensures Names(ports[..i + 1]) == Names(ports[..i]) + {ports[i].name}
  {
    TakeOneMore(ports, i);
    assert forall p :: p in ports[..i + 1] <==> p in ports[..i] || p == ports[i];
  }

  lemma BindOneMore(ports: seq<Port>, columns: map<string, Column>, row: nat, i: nat, variables: map<string, Value>)
    requires i < |ports| && HasValues(ports, columns, row + 1)
    ensures HasValues(ports[..i], columns, row + 1) && HasValues(ports[..i + 1], columns, row + 1)
    ensures variables + PortValues(ports[..i + 1], columns, row)
         == (variables + PortValues(ports[..i], columns, row))[ports[i].name := columns[ports[i].name].values[row]]
  {
    NamesOfPrefix(ports, i);
  }

  method AddVariablesToContext(ports: seq<Port>, columns: map<string, Column>, row: nat, evaluation: EvaluationContext)
    requires HasValues(ports, columns, row + 1)
    modifies evaluation
    ensures evaluation.Bindings() == old(evaluation.Bindings()).(
              variables := old(evaluation.variableValues) + PortValues(ports, columns, row))
  {
    for i := 0 to |ports|
      invariant HasValues(ports[..i], columns, row + 1)
      invariant evaluation.valueKeywordValue == old(evaluation.valueKeywordValue)
      invariant evaluation.variableValues == old(evaluation.variableValues) + PortValues(ports[..i], columns, row)
    {
      BindOneMore(ports, columns, row, i, old(evaluation.variableValues));
      evaluation.SetValueForReference(ports[i].name, columns[ports[i].name].values[row]);
    }
    assert ports[..|ports|] == ports;
  }

  method RemoveVariablesFromContext(ports: seq<Port>, evaluation: EvaluationContext)
    modifies evaluation
    ensures evaluation.Bindings() == old(evaluation.Bindings()).(
              variables := old(evaluation.variableValues) - Names(ports))
  {
    for i := 0 to |ports|
      invariant evaluation.valueKeywordValue == old(evaluation.valueKeywordValue)
      invariant evaluation.variableValues == old(evaluation.variableValues) - Names(ports[..i])
    {
      NamesOfPrefix(ports, i);
      evaluation.DeleteValueForReference(ports[i].name);
    }
    assert ports[..|ports|] == ports;
  }

  /** One iteration, from binding the ports to unbinding them. */
  method TransformRow(m: Model, t: Transform, columns: map<string, Column>, row: nat, context: ExecutionContext)
    returns (r: RowOutcome)
    requires m.WellScoped() && t.WellScoped() && Rooted(m.hierarchy, t.output.valueType)
    requires HasValues(t.inputs, columns, row + 1) && context.evaluation.valueKeywordValue.None?
    modifies context, context.evaluation
    ensures r == RowResult(m, t, columns, row)
    ensures !r.Crash? ==>
              && context.stack == old(context.stack)
              && context.evaluation.Bindings() == Env(old(context.evaluation.variableValues) - Names(t.inputs), None)
    ensures old(context.stack) <= context.stack
  {
    AddVariablesToContext(t.inputs, columns, row, context.evaluation);
    var values := PortValues(t.inputs, columns, row);
    OtherVariablesDoNotMatter(m.library, context.evaluation.Bindings(), Env(values, None), Names(t.inputs),
                              t.expression, Lazy);
    var newValue := Evaluate(m.library, context.evaluation.Bindings(), t.expression, Lazy);
    if !newValue.Val? {
      r := Drop;
    } else {
      var valid, _ := IsValidValueRepresentation(m, newValue.v, t.output.valueType, context);
      if valid.None? || (!valid.value && !Printable(newValue.v)) { return Crash; }
      r := if valid.value then Keep(newValue.v) else Drop;
    }
    RemoveVariablesFromContext(t.inputs, context.evaluation);
  }

  /** The ports are unbound, whatever they may have shadowed. */
  function VariablesAfter(variables: map<string, Value>, ports: seq<Port>, n: nat): map<string, Value> {
    if n == 0 then variables else variables - Names(ports)
  }

  lemma RemovedAgain(variables: map<string, Value>, ports: seq<Port>, n: nat)
    ensures VariablesAfter(variables, ports, n) - Names(ports) == VariablesAfter(variables, ports, n + 1)
  {}

  lemma CollectOneMore(results: seq<RowOutcome>, o: RowOutcome, outputType: ValueType)
    ensures var r, r' := Collected(results, outputType), Collected(results + [o], outputType);
            && r'.resultingColumn.values == r.resultingColumn.values + (if o.Keep? then [o.v] else [])
            && r'.rowsToDelete == r.rowsToDelete + (if o.Keep? then [] else [|results|])
  {
    assert KeptValues(results + [o])[..|results|] == KeptValues(results);
  }

  /** What the loop has collected when it has dealt with the first n rows. */
  ghost predicate CollectedUpTo(m: Model, t: Transform, columns: map<string, Column>, n: nat, r: TransformResult)
    requires Rooted(m.hierarchy, t.output.valueType)
  {
    && HasValues(t.inputs, columns, n)
    && NoneCrashes(RowResults(m, t, columns, n))
    && r == Collected(RowResults(m, t, columns, n), t.output.valueType)
  }

  function CollectRow(r: TransformResult, row: nat, o: RowOutcome): TransformResult {
    if o.Keep? then r.(resultingColumn := r.resultingColumn.(values := r.resultingColumn.values + [o.v]))
    else r.(rowsToDelete := r.rowsToDelete + [row])
  }

  lemma CollectStep(m: Model, t: Transform, columns: map<string, Column>, n: nat, r: TransformResult)
    requires Rooted(m.hierarchy, t.output.valueType) && HasValues(t.inputs, columns, n + 1)
    requires CollectedUpTo(m, t, columns, n, r) && !RowResult(m, t, columns, n).Crash?
    ensures CollectedUpTo(m, t, columns, n + 1, CollectRow(r, n, RowResult(m, t, columns, n)))
  {
    RowResultsOneMore(m, t, columns, n);
    CollectOneMore(RowResults(m, t, columns, n), RowResult(m, t, columns, n), t.output.valueType);
  }

  /** One iteration, with the value or the row number added to what was collected before. */
  method CollectTransformedRow(m: Model, t: Transform, columns: map<string, Column>, row: nat,
                               context: ExecutionContext, collected: TransformResult)
    returns (r: Option<TransformResult>)
    requires m.WellScoped() && t.WellScoped() && Rooted(m.hierarchy, t.output.valueType)
    requires HasValues(t.inputs, columns, row + 1) && context.evaluation.valueKeywordValue.None?
    requires CollectedUpTo(m, t, columns, row, collected)
    modifies context, context.evaluation
    ensures r.None? <==> RowResult(m, t, columns, row).Crash?
    ensures r.Some? ==> CollectedUpTo(m, t, columns, row + 1, r.value)
    ensures r.Some? ==> context.stack == old(context.stack)
    ensures r.Some? ==>
              context.evaluation.Bindings() == Env(old(context.evaluation.variableValues) - Names(t.inputs), None)
    ensures old(context.stack) <= context.stack
  {
    var outcome := TransformRow(m, t, columns, row, context);
    if outcome.Crash? { return None; }
    CollectStep(m, t, columns, row, collected);
    return Some(CollectRow(collected, row, outcome));
  }

  /** None if a row crashed: a constraint yielded no boolean, or an invalid value cannot be printed. */
  method DoExecuteTransform(m: Model, t: Transform, columns: map<string, Column>, numberOfRows: nat,
                            context: ExecutionContext)
    returns (r: Option<TransformResult>)
    requires m.WellScoped() && t.WellScoped() && Rooted(m.hierarchy, t.output.valueType)
    requires HasValues(t.inputs, columns, numberOfRows) && context.evaluation.valueKeywordValue.None?
    modifies context, context.evaluation
    ensures r.Some? <==> NoneCrashes(RowResults(m, t, columns, numberOfRows))
    ensures r.Some? ==> r.value == Collected(RowResults(m, t, columns, numberOfRows), t.output.valueType)
    ensures r.Some? ==> context.stack == old(context.stack)
    ensures r.Some? ==>
              context.evaluation.Bindings()
              == Env(VariablesAfter(old(context.evaluation.variableValues), t.inputs, numberOfRows), None)
    ensures old(context.stack) <= context.stack
  {
    var collected := TransformResult(Column([], t.output.valueType), []);
    for rowIndex := 0 to numberOfRows
      invariant CollectedUpTo(m, t, columns, rowIndex, collected)
      invariant context.stack == old(context.stack)
      invariant context.evaluation.Bindings()
             == Env(VariablesAfter(old(context.evaluation.variableValues), t.inputs, rowIndex), None)
    {
      RemovedAgain(old(context.evaluation.variableValues), t.inputs, rowIndex);
      r := CollectTransformedRow(m, t, columns, rowIndex, context, collected);
      if r.None? {
        assert RowResults(m, t, columns, numberOfRows)[rowIndex].Crash?;
        return;
      }
      collected := r.value;
    }
    return Some(collected);
  }

  method ExecuteTransform(m: Model, t: Transform, columns: map<string, Column>, numberOfRows: nat,
                          context: ExecutionContext)
    returns (r: Option<TransformResult>)
    requires m.WellScoped() && t.WellScoped() && Rooted(m.hierarchy, t.output.valueType)
    requires HasValues(t.inputs, columns, numberOfRows) && context.evaluation.valueKeywordValue.None?
    modifies context, context.evaluation
    ensures r.Some? <==> NoneCrashes(RowResults(m, t, columns, numberOfRows))
    ensures r.None? ==> old(context.stack) + [TransformNode(t.id)] <= context.stack
    ensures r.Some? ==> r.value == Collected(RowResults(m, t, columns, numberOfRows), t.output.valueType)
    ensures r.Some? ==> context.stack == old(context.stack)
    ensures r.Some? ==>
              context.evaluation.Bindings()
              == Env(VariablesAfter(old(context.evaluation.variableValues), t.inputs, numberOfRows), None)
  {
    context.EnterNode(TransformNode(t.id));
    r := DoExecuteTransform(m, t, columns, numberOfRows, context);
    if r.None? { return; }
    context.ExitNode(TransformNode(t.id));
  }
}
