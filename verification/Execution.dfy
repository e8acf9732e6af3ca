/**
 * Executing the blocks of a pipeline in topological order. The specification is a recursive
 * data flow from parents to children; the step loop is shown to refine it.
 */
module Execution {
  import opened Common
  import opened Pipelines
  import opened Contexts

  /** What a block hands to its children. NoInput is the one value that stands for no data. */
  datatype Io = NoInput | Data(payload: nat)

  datatype Result<+T> = Ok(value: T) | Err(error: string)

  /** A block as a pure function of its input; the None result is a block that emits nothing. */
  type Executor = (Block, Io) -> Result<Option<Io>>

  // ---------------------------------------------------------------------------
  // The specification: recursive data flow
  // ---------------------------------------------------------------------------

  /** A run: the first block to execute receives the external input if there is one. */
  datatype Run = Run(pipes: seq<Pipe>, execute: Executor, external: Option<Io>, first: Block)

  function OrNoInput(emitted: Option<Io>): Io {
    match emitted case None => NoInput case Some(v) => v
  }

  lemma ParentHasMoreDescendants(pipes: seq<Pipe>, b: Block, a: Block)
    requires Acyclic(pipes) && Pipe(a, b) in pipes
    ensures Blocks(pipes) - Descendants(pipes, a) < Blocks(pipes) - Descendants(pipes, b)
  {
    ChildHasFewerDescendants(pipes, a, b);
    ChildReaches(pipes, a, b, b);
    AcyclicNeverReturns(pipes, b);
    assert b in Descendants(pipes, a) && b !in Descendants(pipes, b);
    assert b in Blocks(pipes);
  }

  /** What a block emits: its function applied to what its first parent emits. */
  ghost function Flow(run: Run, b: Block): Result<Option<Io>>
    requires Acyclic(run.pipes)
    decreases Blocks(run.pipes) - Descendants(run.pipes, b)
  {
    var parents := ParentBlocks(run.pipes, b);
    if |parents| == 0 then
      run.execute(b, if b == run.first then OrNoInput(run.external) else NoInput)
    else
      var a := parents[0];
      assert a in parents;
      ParentHasMoreDescendants(run.pipes, b, a);
      match Flow(run, a)
      case Err(e) => Err(e)
      case Ok(v) => run.execute(b, OrNoInput(v))
  }

  lemma FirstBlockStarts(pipes: seq<Pipe>, order: seq<Block>)
    requires ParentsFirstListing(pipes, order) && |order| > 0
    ensures order[0] in StartingBlocks(pipes) && |ParentBlocks(pipes, order[0])| == 0
  {
    assert order[0] in order;
    assert !HasParent(pipes, order[0]);
    ParentlessHasNoIngoing(pipes, order[0]);
  }

  lemma {:induction false} FlowDependsOnlyOnFirstInput(run: Run, other: Block, b: Block)
    requires Acyclic(run.pipes) && (run.external.None? || other == run.first)
    ensures Flow(run, b) == Flow(run.(first := other), b)
    decreases Blocks(run.pipes) - Descendants(run.pipes, b)
  {
    var parents := ParentBlocks(run.pipes, b);
    if |parents| > 0 {
      assert parents[0] in parents;
      ParentHasMoreDescendants(run.pipes, b, parents[0]);
      FlowDependsOnlyOnFirstInput(run, other, parents[0]);
    }
  }

  lemma OnlyStartIsFirst(pipes: seq<Pipe>, order: seq<Block>)
    requires ParentsFirstListing(pipes, order) && |order| > 0 && |StartingBlocks(pipes)| == 1
    ensures order[0] == StartingBlocks(pipes)[0]
  {
    FirstBlockStarts(pipes, order);
    SingleMember(StartingBlocks(pipes), order[0]);
  }

  lemma SingleMember(s: seq<Block>, b: Block)
    requires |s| == 1 && b in s
    ensures b == s[0]
  {}

  /** Without external input, or with one starting block, all topological orders yield the same values. */
  lemma FlowIgnoresOrder(pipes: seq<Pipe>, execute: Executor, external: Option<Io>,
                         order: seq<Block>, other: seq<Block>, b: Block)
    requires Acyclic(pipes) && ParentsFirstListing(pipes, order) && ParentsFirstListing(pipes, other)
    requires external.None? || |StartingBlocks(pipes)| == 1
    requires |order| > 0 && |other| > 0
    ensures Flow(Run(pipes, execute, external, order[0]), b) == Flow(Run(pipes, execute, external, other[0]), b)
  {
    if external.Some? {
      OnlyStartIsFirst(pipes, order);
      OnlyStartIsFirst(pipes, other);
    }
    FlowDependsOnlyOnFirstInput(Run(pipes, execute, external, order[0]), other[0], b);
  }

  // ---------------------------------------------------------------------------
  // The step loop
  // ---------------------------------------------------------------------------

  datatype Item = Item(block: Block, value: Option<Io>)

  /** NotADag is the failed assertion of the topological sort. */
  datatype Execution = Done(items: seq<Item>) | Failed(error: string) | NotADag

  function Find(items: seq<Item>, b: Block): (r: Option<Item>)
    ensures forall i :: 0 <= i < |items| && items[i].block == b && (forall j :: 0 <= j < i ==> items[j].block != b) ==>
              r == Some(items[i])
    ensures r.None? <==> forall i :: 0 <= i < |items| ==> items[i].block != b
  {
    if |items| == 0 then None
    else if items[0].block == b then Some(items[0])
    else
      var rest := Find(items[1..], b);
      assert forall i :: 0 < i < |items| ==> items[i] == items[1..][i - 1];
      rest
  }

  method ExecuteBlock(execute: Executor, input: Option<Io>, b: Block) returns (r: Result<Option<Io>>)
    ensures r == if input.None? then Ok(None) else execute(b, input.value)
  {
    if input.None? { return Ok(None); }
    r := execute(b, input.value);
  }

  ghost predicate Executed(run: Run, order: seq<Block>, items: seq<Item>, n: nat)
    requires Acyclic(run.pipes)
  {
    && |items| == |order| && n <= |items|
    && (forall i :: 0 <= i < |items| ==> items[i].block == order[i])
    && (forall i :: 0 <= i < n ==> Flow(run, order[i]) == Ok(items[i].value))
  }

  /** The block's input: what the first parent was recorded to emit. */
  function InputValue(pipes: seq<Pipe>, items: seq<Item>, b: Block): Io {
    var parents := ParentBlocks(pipes, b);
    if |parents| == 0 then NoInput
    else
      match Find(items, parents[0])
      case None => NoInput
      case Some(item) => OrNoInput(item.value)
  }

  lemma ParentComesEarlier(pipes: seq<Pipe>, order: seq<Block>, n: nat, a: Block) returns (i: nat)
    requires ParentsFirstListing(pipes, order) && n < |order| && Pipe(a, order[n]) in pipes
    ensures i < n && order[i] == a && forall j :: 0 <= j < i ==> order[j] != a
  {
    assert a in order[..n];
    i := FirstOccurrence(order[..n], a);
    assert forall j :: 0 <= j < i ==> order[..n][..i][j] == order[j];
  }

  lemma RecordedParentIsFlow(run: Run, order: seq<Block>, items: seq<Item>, n: nat, i: nat)
    requires Acyclic(run.pipes) && Executed(run, order, items, n) && i < n < |order|
    requires |ParentBlocks(run.pipes, order[n])| > 0 && order[i] == ParentBlocks(run.pipes, order[n])[0]
    requires forall j :: 0 <= j < i ==> order[j] != order[i]
    ensures Flow(run, order[n]) == run.execute(order[n], InputValue(run.pipes, items, order[n]))
  {
    assert Find(items, order[i]) == Some(items[i]);
  }

  lemma RecordedInputIsFlow(run: Run, order: seq<Block>, items: seq<Item>, n: nat)
    requires Acyclic(run.pipes) && ParentsFirstListing(run.pipes, order)
    requires Executed(run, order, items, n) && n < |order|
    requires run.first == order[0]
    ensures var input := InputValue(run.pipes, items, order[n]);
            Flow(run, order[n]) == run.execute(order[n], if n == 0 then OrNoInput(run.external) else input)
    ensures n == 0 ==> InputValue(run.pipes, items, order[n]) == NoInput
  {
    if n == 0 {
      FirstBlockStarts(run.pipes, order);
    } else if |ParentBlocks(run.pipes, order[n])| > 0 {
      FirstParentIsPipe(run.pipes, order[n]);
      var i := ParentComesEarlier(run.pipes, order, n, ParentBlocks(run.pipes, order[n])[0]);
      RecordedParentIsFlow(run, order, items, n, i);
    } else {
      StartIsListedOnce(run.pipes, order, n);
    }
  }

  lemma FirstParentIsPipe(pipes: seq<Pipe>, b: Block)
    requires |ParentBlocks(pipes, b)| > 0
    ensures Pipe(ParentBlocks(pipes, b)[0], b) in pipes
  {
    assert ParentBlocks(pipes, b)[0] in ParentBlocks(pipes, b);
  }

  /** A block without parents after the first one is another block. */
  lemma StartIsListedOnce(pipes: seq<Pipe>, order: seq<Block>, n: nat)
    requires ParentsFirstListing(pipes, order) && 0 < n < |order| && |ParentBlocks(pipes, order[n])| == 0
    ensures order[n] != order[0]
  {
    assert !HasParent(pipes, order[n]);
  }

  // ---------------------------------------------------------------------------
  // The same, told by the recorded items alone
  // ---------------------------------------------------------------------------

  /** The pipe from a is the first one into b. */
  ghost predicate FirstParent(pipes: seq<Pipe>, a: Block, b: Block) {
    exists i :: 0 <= i < |pipes| && pipes[i] == Pipe(a, b) && forall j :: 0 <= j < i ==> pipes[j].target != b
  }

  /**
   * The input of the n-th block: what its first parent emitted, and no input if that emitted nothing.
   * Without parents it gets no input, except that the first block gets the external input if there is one.
   */
  ghost predicate IsInput(pipes: seq<Pipe>, external: Option<Io>, order: seq<Block>, items: seq<Item>, n: nat,
                          input: Io)
    requires n < |order|
  {
    if HasParent(pipes, order[n]) then
      && (exists i :: 0 <= i < |items| && i < n && FirstParent(pipes, items[i].block, order[n]))
      && (forall i :: 0 <= i < |items| && FirstParent(pipes, items[i].block, order[n]) && i < n ==>
            if items[i].value.Some? then input == items[i].value.value else input == NoInput)
    else if n == 0 && external.Some? then input == external.value
    else input == NoInput
  }

  /** Executed on its input, the n-th block has this result. */
  ghost predicate ResultsIn(pipes: seq<Pipe>, execute: Executor, external: Option<Io>, order: seq<Block>,
                            items: seq<Item>, n: nat, result: Result<Option<Io>>)
    requires n < |order|
  {
    exists input :: IsInput(pipes, external, order, items, n, input) && execute(order[n], input) == result
  }

  /** The first n items hold the blocks in order, and what each emits on its input. */
  ghost predicate FollowInputs(pipes: seq<Pipe>, execute: Executor, external: Option<Io>, order: seq<Block>,
                               items: seq<Item>, n: nat)
  {
    && n <= |order| && n <= |items|
    && forall k :: 0 <= k < n ==>
         items[k].block == order[k] && ResultsIn(pipes, execute, external, order, items, k, Ok(items[k].value))
  }

  lemma FirstOfFilter(f: Pipe -> bool, pipes: seq<Pipe>) returns (i: nat)
    requires |Filter(f, pipes)| > 0
    ensures i < |pipes| && pipes[i] == Filter(f, pipes)[0] && f(pipes[i]) && forall j :: 0 <= j < i ==> !f(pipes[j])
  {
    if f(pipes[0]) {
      i := 0;
    } else {
      var rest := FirstOfFilter(f, pipes[1..]);
      i := rest + 1;
      assert forall j :: 0 < j < i ==> pipes[j] == pipes[1..][j - 1];
    }
  }

  lemma FirstParentIff(pipes: seq<Pipe>, a: Block, b: Block)
    ensures FirstParent(pipes, a, b) <==> |ParentBlocks(pipes, b)| > 0 && a == ParentBlocks(pipes, b)[0]
  {
    var into := (p: Pipe) => p.target == b;
    ParentlessHasNoIngoing(pipes, b);
    if |ParentBlocks(pipes, b)| > 0 {
      var i := FirstOfFilter(into, pipes);
      assert pipes[i] == Pipe(ParentBlocks(pipes, b)[0], b);
      assert FirstParent(pipes, ParentBlocks(pipes, b)[0], b);
    }
  }

  /** The data flow hands every block what its first parent was recorded to emit. */
  lemma FlowIsOnInput(run: Run, order: seq<Block>, items: seq<Item>, n: nat) returns (input: Io)
    requires Acyclic(run.pipes) && ParentsFirstListing(run.pipes, order)
    requires Executed(run, order, items, n) && n < |order| && run.first == order[0]
    ensures IsInput(run.pipes, run.external, order, items, n, input)
    ensures Flow(run, order[n]) == run.execute(order[n], input)
  {
    var b := order[n];
    ParentlessHasNoIngoing(run.pipes, b);
    if HasParent(run.pipes, b) {
      FirstParentIsPipe(run.pipes, b);
      var a := ParentBlocks(run.pipes, b)[0];
      var i := ParentComesEarlier(run.pipes, order, n, a);
      input := if items[i].value.Some? then items[i].value.value else NoInput;
      forall c ensures FirstParent(run.pipes, c, b) <==> c == a { FirstParentIff(run.pipes, c, b); }
    } else {
      input := if n == 0 && run.external.Some? then run.external.value else NoInput;
      if n > 0 { StartIsListedOnce(run.pipes, order, n); }
    }
  }

  lemma ExecutedFollowsInputs(run: Run, order: seq<Block>, items: seq<Item>, n: nat)
    requires Acyclic(run.pipes) && ParentsFirstListing(run.pipes, order)
    requires Executed(run, order, items, n) && (|order| > 0 ==> run.first == order[0])
    ensures FollowInputs(run.pipes, run.execute, run.external, order, items, n)
  {
    forall k | 0 <= k < n
      ensures ResultsIn(run.pipes, run.execute, run.external, order, items, k, Ok(items[k].value))
    {
      var input := FlowIsOnInput(run, order, items, k);
    }
  }

  /** One iteration: executes the n-th block and records what it emits. */
  method ExecuteNext(context: ExecutionContext, run: Run, items: seq<Item>, n: nat, ghost order: seq<Block>)
    returns (r: Result<seq<Item>>)
    requires Acyclic(run.pipes) && ParentsFirstListing(run.pipes, order) && n < |order| && run.first == order[0]
    requires Executed(run, order, items, n)
    modifies context
    ensures r.Ok? ==> Executed(run, order, r.value, n + 1) && context.stack == old(context.stack)
    ensures r.Err? ==> Flow(run, order[n]) == Err(r.error)
    ensures r.Err? ==> context.stack == old(context.stack) + [BlockNode(order[n])]
  {
    var block := items[n].block;
    var inputValue := InputValue(run.pipes, items, block);
    RecordedInputIsFlow(run, order, items, n);
    if n == 0 && inputValue == NoInput && run.external.Some? {
      inputValue := run.external.value;
    }
    context.EnterNode(BlockNode(block));
    var executionResult := ExecuteBlock(run.execute, Some(inputValue), block);
    if executionResult.Err? { return Err(executionResult.error); }
    context.ExitNode(BlockNode(block));
    return Ok(items[n := Item(block, executionResult.value)]);
  }

  /** The step loop over the sorted blocks; a block that fails stays on the context stack. */
  method ExecuteInOrder(context: ExecutionContext, run: Run, blocks: seq<Block>)
    returns (r: Result<seq<Item>>, ghost executed: seq<Item>, ghost failing: nat)
    requires Acyclic(run.pipes) && ParentsFirstListing(run.pipes, blocks) && |blocks| > 0 && run.first == blocks[0]
    modifies context
    ensures r.Ok? ==> Executed(run, blocks, r.value, |blocks|) && context.stack == old(context.stack)
    ensures r.Err? ==>
              && failing < |blocks| && Executed(run, blocks, executed, failing)
              && Flow(run, blocks[failing]) == Err(r.error)
              && context.stack == old(context.stack) + [BlockNode(blocks[failing])]
  {
    var executionOrder := seq(|blocks|, i requires 0 <= i < |blocks| => Item(blocks[i], Some(NoInput)));
    for i := 0 to |executionOrder|
      invariant Executed(run, blocks, executionOrder, i)
      invariant context.stack == old(context.stack)
    {
      var next := ExecuteNext(context, run, executionOrder, i, blocks);
      if next.Err? { return Err(next.error), executionOrder, i; }
      executionOrder := next.value;
    }
    return Ok(executionOrder), executionOrder, 0;
  }

  lemma FailureFollowsInputs(run: Run, order: seq<Block>, items: seq<Item>, n: nat, error: string)
    requires Acyclic(run.pipes) && ParentsFirstListing(run.pipes, order)
    requires Executed(run, order, items, n) && n < |order| && run.first == order[0]
    requires Flow(run, order[n]) == Err(error)
    ensures FollowInputs(run.pipes, run.execute, run.external, order, items, n)
    ensures ResultsIn(run.pipes, run.execute, run.external, order, items, n, Err(error))
  {
    ExecutedFollowsInputs(run, order, items, n);
    var input := FlowIsOnInput(run, order, items, n);
  }

  method ExecuteBlocks(context: ExecutionContext, pipes: seq<Pipe>, execute: Executor, initialInput: Option<Io>)
    returns (r: Execution, ghost order: seq<Block>, ghost executed: seq<Item>, ghost failing: nat)
    modifies context
    ensures r.NotADag? <==> !Acyclic(pipes)
    ensures !r.NotADag? ==> ParentsFirstListing(pipes, order) && CountsAreExact(pipes, order, [])
    ensures !r.NotADag? && Distinct(pipes) ==> TopologicalOrder(pipes, order)
    ensures r.Done? ==> |r.items| == |order|
    ensures r.Done? && |order| > 0 ==> Executed(Run(pipes, execute, initialInput, order[0]), order, r.items, |order|)
    ensures r.Done? ==> FollowInputs(pipes, execute, initialInput, order, r.items, |order|)
    ensures r.Done? ==> context.stack == old(context.stack)
    ensures r.Failed? ==>
              && failing < |order| && FollowInputs(pipes, execute, initialInput, order, executed, failing)
              && ResultsIn(pipes, execute, initialInput, order, executed, failing, Err(r.error))
              && context.stack == old(context.stack) + [BlockNode(order[failing])]
    ensures r.Failed? ==>
              && Flow(Run(pipes, execute, initialInput, order[0]), order[failing]) == Err(r.error)
              && forall i :: 0 <= i < failing ==> Flow(Run(pipes, execute, initialInput, order[0]), order[i]).Ok?
  {
    executed, failing := [], 0;
    var sorted := TopologicalSorting(pipes);
    if sorted.None? { return NotADag, [], [], 0; }
    var blocks := sorted.value;
    order := blocks;
    if |blocks| == 0 { return Done([]), order, [], 0; }
    var run := Run(pipes, execute, initialInput, blocks[0]);
    var result;
    result, executed, failing := ExecuteInOrder(context, run, blocks);
    if result.Err? {
      FailureFollowsInputs(run, order, executed, failing, result.error);
      return Failed(result.error), order, executed, failing;
    }
    ExecutedFollowsInputs(run, order, result.value, |order|);
    return Done(result.value), order, executed, failing;
  }
}
