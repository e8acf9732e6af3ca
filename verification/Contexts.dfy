/** The state that execution threads through blocks, transforms and constraints. */
module Contexts {
  import opened Common
  import opened ValueTypes
  import opened Expressions

  class EvaluationContext {
    var variableValues: map<string, Value>
    var valueKeywordValue: Option<Value>

    constructor ()
      ensures Bindings() == Env(map[], None)
    {
      variableValues := map[];
      valueKeywordValue := None;
    }

    /** What the evaluator sees of this context. */
    function Bindings(): Env
      reads this
    {
      Env(variableValues, valueKeywordValue)
    }

    method SetValueForReference(name: string, value: Value)
      modifies this
      ensures Bindings() == old(Bindings()).(variables := old(variableValues)[name := value])
    {
      variableValues := variableValues[name := value];
    }

    method DeleteValueForReference(name: string)
      modifies this
      ensures Bindings() == old(Bindings()).(variables := old(variableValues) - {name})
    {
      variableValues := variableValues - {name};
    }

    method SetValueForValueKeyword(value: Value)
      modifies this
      ensures Bindings() == old(Bindings()).(keyword := Some(value))
    {
      valueKeywordValue := Some(value);
    }

    method DeleteValueForValueKeyword()
      modifies this
      ensures Bindings() == old(Bindings()).(keyword := None)
    {
      valueKeywordValue := None;
    }
  }

  /** Blocks, constraints and transforms, each by the identity of its definition. */
  datatype StackNode = BlockNode(block: nat) | ConstraintNode(constraint: nat) | TransformNode(transform: nat)

  class ExecutionContext {
    const evaluation: EvaluationContext
    var stack: seq<StackNode>

    constructor (evaluation: EvaluationContext)
      ensures this.evaluation == evaluation && stack == []
    {
      this.evaluation := evaluation;
      stack := [];
    }

    method EnterNode(node: StackNode)
      modifies this
      ensures stack == old(stack) + [node] && GetCurrentNode() == Some(node)
    {
      stack := stack + [node];
    }

    method ExitNode(node: StackNode)
      requires |stack| > 0 && stack[|stack| - 1] == node
      modifies this
      ensures stack == old(stack)[..|old(stack)| - 1] && old(stack) == stack + [node]
    {
      stack := stack[..|stack| - 1];
    }

    /** The innermost node, or None for the pipeline itself. */
    function GetCurrentNode(): (r: Option<StackNode>)
      reads this
      ensures r.None? <==> stack == []
    {
      if |stack| == 0 then None else Some(stack[|stack| - 1])
    }
  }
}
