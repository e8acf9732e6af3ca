# A verified model of Jayvee

Jayvee is a language for data pipelines. This project models its expression language, its pipeline
scheduler, and the data structures its blocks work on, and proves properties of them in Dafny.
`dafny verify dfyconfig.toml` checks everything.

| files | what they model |
|---|---|
| `ValueTypes`, `TypeJoin` | the hierarchy of value types, conversion, and the element type of a collection |
| `Expressions`, `TypingLaws`, `OperatorLaws`, `TypeSoundness`, `Strategies`, `Simplification`, `SimplificationTyping` | type inference, the operators, the evaluator with its lazy and exhaustive strategies, the hint that an expression can be simplified |
| `Pipelines`, `InputCheck`, `Execution` | topological sorting of blocks, the check for several inputs, the loop that executes blocks |
| `Paths`, `FileTree`, `FileSystem` | the in-memory file system: path normalisation, the tree, and the objects that implement it |
| `ColumnIds`, `Sheets`, `Deletion`, `SheetExecutors` | cell addressing, sheets, and the blocks that edit sheets and text files |
| `Contexts`, `Validity`, `ConstraintTyping` | the contexts threaded through execution, constraints on values, and what validation promises of them |
| `Tables`, `Selection`, `Transforms`, `TableTransformer`, `Interpretation` | tables, transforms of their rows, and reading a table from a sheet |
| `Imports` | the validation of import chains |

Pure code is modelled by functions, and code that updates variables or objects by methods and
classes. Each method is tied to a function that says what it computes, and the properties are
lemmas about that function.

Conventions: numbers are exact reals, and an integer is a real that equals its floor. The outcomes of
evaluation are a value, undefined, a parse error (thrown by `asDecimal`, `asInteger` and `asBoolean`)
and a failed assertion. A failed assertion elsewhere is a result of its own, such as `Crashed`, or a
precondition where callers guarantee it. Documents, definitions, blocks and similar nodes of a linked
model are identified by numbers.

## Where the code differs from what it suggests

Each of these shows in the lemma or contract named with it, most as an exact condition or a concrete input.

- Deleting rows or columns: the removal of duplicates reads its accumulator at the index of the input, so
  it drops one duplicate only. With two or more redundant entries too much is deleted, or an assertion
  fails (`SheetExecutors.OnlyOneDuplicateIsRemoved`, `RowsAreDeletedIff`, `ColumnsAreDeletedIff`,
  `NamedThriceDeletesTwo`). Row 0 passes all checks and deletes the last row (`RowsAreDeletedIff`). A row or column
  spelled as a range literal up to its last cell passes validation, but throws (`DeleteRows`, `DeleteColumns`).
- Cloning a sheet counts its columns anew as the length of the longest row. A sheet whose longest row was
  deleted therefore has more columns than its clone, and a later deletion or write in the surplus columns passes
  the check of the block but fails an assertion on the clone (`SurplusColumnsThrow`, `RowsBesideSurplusThrow`,
  `SurplusCellsThrow`, `DeletingLongestRowLeavesSurplus`).
- Writing cells: row 0 passes validation and the checks of the bounds, and throws (`SheetExecutors.WriteCells`,
  `WritingRowZeroThrows`).
- Deleting text lines: the executor accepts line numbers below 1 and deletes lines counted from the end
  (`Deletion.NamedLinesAreDeletedIff`, `LineZeroDeletesTheLast`). Validation rejects such numbers where it can evaluate
  them; they reach the executor through a block type property inside a composite block, which has no value then.
- Import cycles: all branches share one set of visited documents, so a document imported by two others is
  reported as a cycle (`Imports.DiamondsAreReportedToo`).
- Simplification: the search takes a collection literal to be constant without looking inside
  (`Simplification.CollectedAreClosedIffCollectionsAre`, `OpenLiteralIsCollected`).
- Strategies: lazy evaluation can yield a value where exhaustive evaluation is undefined, and in an untyped
  expression it can throw where exhaustive evaluation does not (`Strategies.StrategiesDiffer`).
- Files: a file put where a directory of that name exists is accepted, but never found
  (`FileTree.PutChangesOneLookup`, `DirectoriesHideFiles`); a refused insertion may leave new directories behind
  (`FileTree.PutAddsDirectories`, `RefusalsLeaveDirectories`).
- Sorting and executing blocks: where two pipes are equal, a block may be listed and executed more than once
  (`Pipelines.TopologicalSorting`, `OneParentMultiplies`, `EqualPipesListTwice`); the check for several inputs guards
  against that (`InputCheck.NoReportsMeansForest`).
  A parent that emits nothing hands its children the "no input" value, so they run all the same; a
  block that fails stays on the context stack (`Execution.ExecuteBlocks`).
- Constraints: an expression constraint that is undefined or unparsable for a value fails an assertion, which aborts the
  block instead of dropping the row, because only the transform expression is evaluated inside the handler for thrown
  errors (`ConstraintTyping.TypedVerdictFailsIff`, `ZeroGetsNoVerdict`, `TableTransformer.TypedRowsCrashIff`,
  `Interpretation.FailingIff`). Validation compares the type of an expression constraint with the value type it
  is attached to, but skips typed constraints, as the test in
  libs/language-server/src/lib/validation/checks/value-type-definition.ts:145-149 is the wrong way round; these
  yield a boolean for every value (`ConstraintTyping.FittingConstraintsDecide`).
- Transforms: unbinding the ports after a row also removes an outer variable of the same name
  (`Transforms.ExecuteTransform`).

## Model

| member | source | states |
|---|---|---|
| ValueTypes.CycleCheckIsExact | libs/language-server/src/lib/ast/wrappers/value-type/abstract-value-type.ts:50-63 | The check terminates on every definition graph, cyclic ones included, and answers true exactly when the supertype chain never ends |
| ValueTypes.GetSupertype | libs/language-server/src/lib/ast/wrappers/value-type/abstract-value-type.ts:25-30 | The guarded supertype is strictly lower in the hierarchy, so every recursion along it terminates |
| ValueTypes.RootedIffChainReachesPrimitive | libs/language-server/src/lib/ast/wrappers/value-type/atomic-value-type.ts:92-96 | Following guarded supertypes arrives at a primitive type if and only if some number of declared `oftype` steps does |
| ValueTypes.ConversionIsTransitive | libs/language-server/src/lib/ast/wrappers/value-type/atomic-value-type.ts:59-69 | Convertibility composes, over any hierarchy |
| ValueTypes.ConversionIsAntisymmetric | libs/language-server/src/lib/ast/wrappers/value-type/primitive/primitive-value-type.ts:16-22 | Types that convert into each other are equal |
| ValueTypes.ConversionKeepsRepresentation | libs/language-server/src/lib/ast/wrappers/value-type/atomic-value-type.ts:98-106 | Whatever represents a type also represents every type it converts to |
| ValueTypes.DefinitionsFollowTheirClause | libs/language-server/src/lib/ast/wrappers/value-type/atomic-value-type.ts:59-96 | A definition is on a chain that ends exactly if its `oftype` clause leads to a type on one; then that type is its supertype and it converts to it |
| ValueTypes.ConversionIff | libs/language-server/src/lib/ast/wrappers/value-type/atomic-value-type.ts:59-69 | A type converts exactly to the types on its `oftype` chain, to decimal if there is an integer on it, and to every collection type if it is that of the empty collection |
| ValueTypes.RepresentationIsThatOfTheRoot | libs/language-server/src/lib/ast/wrappers/value-type/atomic-value-type.ts:98-106 | A user-defined type has the representations of the type at the end of its chain |
| ValueTypes.KindsOfValues | libs/language-server/src/lib/ast/wrappers/value-type/primitive/integer-value-type.ts:28-32 | Which of the other types each kind of value represents: a number is an integer exactly if it is whole |
| TypeJoin.PickCommonPrimitive | libs/language-server/src/lib/ast/wrappers/util/value-type-util.ts:35-59 | The widening loop fails exactly when its recursive specification does and otherwise returns its result |
| TypeJoin.PickCommonAtomic | libs/language-server/src/lib/ast/wrappers/util/value-type-util.ts:61-84 | The level-by-level walk returns the last type on which all hierarchy stacks agree |
| TypeJoin.CommonPrimitiveIsLeast | libs/language-server/src/lib/ast/wrappers/util/value-type-util.ts:35-59 | The common primitive type is the least upper bound of primitive types, and is missing only if there is no upper bound |
| TypeJoin.AtomicJoinIsLeast | libs/language-server/src/lib/ast/wrappers/util/value-type-util.ts:61-84 | The common user-defined type is the least upper bound of the given types |
| TypeJoin.JoinIsLeastUpperBound | libs/language-server/src/lib/ast/expressions/type-inference.ts:216-268 | The element type inferred for a collection is the least upper bound of the element types, and inference fails exactly when none exists |
| TypeJoin.JoinIgnoresOrder | libs/language-server/src/lib/ast/expressions/type-inference.ts:216-268 | Collections with the same set of element types get the same element type, whatever the order |
| Expressions.CollectionsEvaluatePointwise | libs/language-server/src/lib/ast/expressions/evaluate-expression.ts:151-165 | A collection literal has a value exactly if all its elements have, and it is the collection of their values |
| Expressions.CollectionsFailAtTheFirstThrow | libs/language-server/src/lib/ast/expressions/evaluate-expression.ts:151-165 | A collection literal throws what its first throwing element throws, and without one it is undefined as soon as an element is |
| TypingLaws.LiteralsAreTyped | libs/language-server/src/lib/ast/expressions/type-inference.ts:153-199 | Literals and references have the type of what they denote |
| TypingLaws.WholeNumbersAreIntegers | libs/language-server/src/lib/ast/expressions/type-inference.ts:206-214 | Number literals have the integer type exactly for whole numbers, also those written with a decimal point |
| TypingLaws.VariablesAreTyped | libs/language-server/src/lib/ast/expressions/type-inference.ts:290-365 | Variables and the value keyword have their declared types; only texts have a length |
| TypingLaws.UnaryOperatorsAreTyped | libs/language-server/src/lib/ast/expressions/operator-type-computer.ts:28-52 | For each unary operator, the operand types it accepts and the type it yields |
| TypingLaws.ArithmeticIsTyped | libs/language-server/src/lib/ast/expressions/type-computers/basic-arithmetic-operator-type-computer.ts:19-30 | Sums, differences and products of two integers are integers, all other arithmetic on numbers yields decimals, and nothing else has a type |
| TypingLaws.PredicatesAreTyped | libs/language-server/src/lib/ast/expressions/operator-type-computer.ts:71-126 | Comparisons take numbers, matching a text and a regular expression, the logical operators booleans, and all yield booleans |
| TypingLaws.EqualityIsTyped | libs/language-server/src/lib/ast/expressions/type-computers/equality-operator-type-computer.ts:27-72 | Operands of equality are booleans, texts or numbers of one primitive type, or an integer and a decimal; user-defined types are excluded |
| TypingLaws.MembershipIsTyped | libs/language-server/src/lib/ast/expressions/type-computers/in-operator-type-computer.ts:37-103 | The same for an element and the elements of a collection, without booleans |
| TypingLaws.ReplacingIsTyped | libs/language-server/src/lib/ast/expressions/operator-type-computer.ts:144-204 | Replacing takes a text, a regular expression and a text, in this order, and yields a text |
| TypingLaws.CollectionsAreTyped | libs/language-server/src/lib/ast/expressions/type-inference.ts:216-288 | A collection literal has the collection type of the least type that all its elements convert to; it has none if there is no such type |
| TypeSoundness.UnaryIsSound | libs/language-server/src/lib/ast/expressions/operator-type-computer.ts:33-49 | The computed type of a unary operator describes its results, and its operand guard holds |
| TypeSoundness.BinaryIsSound | libs/language-server/src/lib/ast/expressions/operator-type-computer.ts:79-120 | The same for binary operators, under both strategies, short-circuits included |
| TypeSoundness.ReplaceIsSound | libs/language-server/src/lib/ast/expressions/operator-type-computer.ts:144-204 | The same for the ternary operator |
| TypeSoundness.InferenceIsSound | libs/language-server/src/lib/ast/expressions/type-inference.ts:50-268 | Type soundness: a typed expression whose variables hold representations of their types never fails an operand guard under either strategy, and yields undefined, a parse error or a value of its type |
| TypeSoundness.PropertyValuesFitTheirType | libs/language-server/src/lib/ast/expressions/evaluate-expression.ts:75-81 | The final assertion on an evaluated property holds if the expression type converts to the property type |
| Strategies.LazyKeepsValues | libs/language-server/src/lib/ast/expressions/operator-evaluator.ts:106-286 | If exhaustive evaluation yields a value, lazy evaluation yields the same one, typed or not |
| Strategies.LazyThrowsOnlyIfExhaustiveThrows | libs/language-server/src/lib/ast/expressions/operator-evaluator.ts:106-286 | In a typed expression whatever makes lazy evaluation throw makes exhaustive evaluation throw |
| Strategies.StrategiesDiffer | libs/language-server/src/lib/ast/expressions/operator-evaluator.ts:165-203 | Concrete expressions showing that neither statement has a converse, and that the second one needs the typing |
| OperatorLaws.NegationSwapsAndWithOr | libs/language-server/src/lib/ast/expressions/operator-evaluator.ts:152-204 | De Morgan: negation turns each of short-circuit `and` and `or` into the other with the same outcome, undefined and thrown ones included, under both strategies |
| OperatorLaws.RemainderCompletesQuotient | libs/language-server/src/lib/ast/expressions/evaluators/modulo-operator-evaluator.ts:19-40 | Quotient and remainder are undefined exactly for divisor zero; the remainder completes the truncated quotient, is smaller than the divisor and has the sign of the dividend |
| OperatorLaws.RoundingIsNearest | libs/language-server/src/lib/ast/expressions/evaluators/round-operator-evaluator.ts:15-17 | Rounding, floor and ceiling give the nearest integers, with ties rounded upwards |
| OperatorLaws.LeavesDenote | libs/language-server/src/lib/ast/expressions/evaluate-expression.ts:144-181 | Literals and references stand for themselves, variables and the value keyword for what they are bound to, and only a text has a length |
| OperatorLaws.ComparisonsFollowTheOrder | libs/language-server/src/lib/ast/expressions/evaluators/less-than-operator-evaluator.ts:16-18 | Operands with numbers as values compare as these numbers do, in every environment and under both strategies |
| OperatorLaws.ComparisonsDefineEachOther | libs/language-server/src/lib/ast/expressions/evaluators/greater-equal-operator-evaluator.ts:16-18 | Greater is less with exchanged operands, less-or-equal is less or equal, greater-or-equal is not less, and exactly one of less, equal and greater holds |
| OperatorLaws.EqualityComparesValues | libs/language-server/src/lib/ast/expressions/evaluators/equality-operator-evaluator.ts:21-26 | Equality and inequality are those of values |
| OperatorLaws.ArithmeticComputes | libs/language-server/src/lib/ast/expressions/evaluators/subtraction-operator-evaluator.ts:16-18 | Sum, difference and product of the values of the operands |
| OperatorLaws.ProductsAreExact | libs/language-server/src/lib/ast/expressions/evaluators/multiplication-operator-evaluator.ts:16-18 | The product is that of the two numbers |
| OperatorLaws.SubtractionUndoesAddition | libs/language-server/src/lib/ast/expressions/evaluators/subtraction-operator-evaluator.ts:16-18 | Adding a number and then subtracting it gives the first operand |
| OperatorLaws.DivisionUndoesMultiplication | libs/language-server/src/lib/ast/expressions/evaluators/division-operator-evaluator.ts:22-38 | Multiplying by a number other than zero and then dividing by it gives the first operand |
| OperatorLaws.MultiplicationDistributes | libs/language-server/src/lib/ast/expressions/evaluators/multiplication-operator-evaluator.ts:16-18 | Multiplication distributes over addition |
| OperatorLaws.DivisionComputes | libs/language-server/src/lib/ast/expressions/evaluators/division-operator-evaluator.ts:22-38 | Quotient times divisor is the dividend; the remainder leaves a whole multiple of the divisor, is smaller than it and has the sign of the dividend; both are undefined exactly for divisor zero |
| OperatorLaws.PowersCompute | libs/language-server/src/lib/ast/expressions/evaluators/root-operator-evaluator.ts:19-46 | Base or radicand come from the left operand, exponent or degree from the right one; undefined without finite result |
| OperatorLaws.LogicComputes | libs/language-server/src/lib/ast/expressions/evaluators/xor-operator-evaluator.ts:16-18 | Conjunction, disjunction, exclusive disjunction and negation of the values of the operands, under both strategies |
| OperatorLaws.LeftOperandDecides | libs/language-server/src/lib/ast/expressions/operator-evaluator.ts:180-203 | Under lazy evaluation a left operand that decides makes the right one irrelevant; under exhaustive evaluation the whole still fails as the right one does |
| OperatorLaws.FailuresPropagate | libs/language-server/src/lib/ast/expressions/operator-evaluator.ts:106-204 | What a binary operator makes of operands without value: the left one decides, but exhaustive evaluation prefers an error thrown by the right one to an undefined left one |
| OperatorLaws.OperandsAreChecked | libs/language-server/src/lib/ast/expressions/operator-evaluator.ts:135-136 | For each binary operator, the kinds of operand values that fail an assertion, and that no others do |
| OperatorLaws.MatchingComputes | libs/language-server/src/lib/ast/expressions/evaluators/matches-operator-evaluator.ts:16-18 | The left operand is the text and the right one the pattern that the library matches |
| OperatorLaws.MembershipIsSomeEquality | libs/language-server/src/lib/ast/expressions/evaluators/in-operator-evaluator.ts:24-29 | A value is in a collection literal exactly if comparing it with some element for equality yields true |
| OperatorLaws.ReplacingComputes | libs/language-server/src/lib/ast/expressions/evaluators/replace-operator-evaluator.ts:17-23 | Text, pattern and replacement go to the library in this order |
| OperatorLaws.ReplacingFails | libs/language-server/src/lib/ast/expressions/operator-evaluator.ts:228-286 | What the ternary operator makes of operands without value or of the wrong kind, under both strategies |
| OperatorLaws.UnaryArithmeticComputes | libs/language-server/src/lib/ast/expressions/evaluators/sqrt-operator-evaluator.ts:20-37 | Signs, square root (undefined exactly for negative numbers), floor, ceiling and rounding of the value of the operand |
| OperatorLaws.TextOperatorsCompute | libs/language-server/src/lib/ast/expressions/evaluators/parse-operators-evaluators.ts:16-69 | Texts are parsed as decimals, as integers exactly if the decimal is whole, and as booleans if they spell one in any case; otherwise a parse error is thrown |
| OperatorLaws.UnaryOperandIsChecked | libs/language-server/src/lib/ast/expressions/operator-evaluator.ts:62-90 | A unary operator hands on a missing value, and fails an assertion exactly on a value of the wrong kind |
| Simplification.CollectsMaximalClosed | libs/language-server/src/lib/validation/validation-util.ts:104-183 | If collection literals are closed, what is collected is exactly the maximal sub-expressions without free variables |
| Simplification.CollectsLeftToRight | libs/language-server/src/lib/validation/validation-util.ts:104-183 | They are collected from left to right, each once |
| Simplification.CollectedAreClosedIffCollectionsAre | libs/language-server/src/lib/validation/validation-util.ts:104-115 | The search does not descend into collection literals: everything collected is closed if and only if all collection literals are |
| Simplification.OpenLiteralIsCollected | libs/language-server/src/lib/validation/validation-util.ts:104-115 | A concrete literal that is collected although its value depends on a variable |
| Simplification.ReplacingReportedKeepsMeaning | libs/language-server/src/lib/validation/validation-util.ts:75-102 | Replacing a reported sub-expression by its reported value changes no evaluation of the whole, in any environment and strategy |
| Simplification.CheckExpressionSimplification | libs/language-server/src/lib/validation/validation-util.ts:75-102 | The loop emits the reports up to the first expression without a value, and completes exactly if there is none |
| Simplification.ReportsAreFaithful | libs/language-server/src/lib/validation/validation-util.ts:75-102 | Each report, also one emitted before a failure, names a collected expression worth simplifying with its exhaustive value, in source order |
| Simplification.ReportsAreComplete | libs/language-server/src/lib/validation/validation-util.ts:75-102 | Each collected expression worth simplifying is reported if it and all before it have values |
| Simplification.SimplifiableIff | libs/language-server/src/lib/validation/validation-util.ts:185-197 | Worth simplifying is every operator but a minus in front of a value literal |
| Simplification.SumIsReported | libs/language-server/src/lib/validation/validation-util.ts:75-102 | `1 + 2` is reported as 3, and nothing else |
| Simplification.LeftIsReported | libs/language-server/src/lib/validation/validation-util.ts:75-102 | Of `(1 + 2) + x` only the left operand is reported, as 3 |
| Simplification.NumbersAndVariablesAreNotReported | libs/language-server/src/lib/validation/validation-util.ts:185-197 | Neither a negative number nor a variable is reported |
| Simplification.SimplificationIsTruthful | libs/language-server/src/lib/validation/validation-util.ts:75-189 | Applying all emitted reports at once keeps the meaning of the expression |
| SimplificationTyping.PutNarrows | libs/language-server/src/lib/ast/expressions/type-inference.ts:50-215 | Inference is monotone: with an integer in the place of a decimal part, an expression stays typed and narrows in the same way at most |
| SimplificationTyping.SimplificationKeepsTyping | libs/language-server/src/lib/validation/validation-util.ts:75-189 | Applying all emitted reports at once leaves a typed expression typed, with a type that converts to the one it had |
| Pipelines.TopologicalSorting | libs/language-server/src/lib/ast/wrappers/pipeline-wrapper.ts:116-153 | The loop terminates on every list of pipes; its final assertion holds exactly if the graph has no cycle, and then the result lists every block with sources before targets, each once if no two pipes are equal, and otherwise as often as the visits of its parents queue it |
| Pipelines.OneParentMultiplies | libs/language-server/src/lib/ast/wrappers/pipeline-wrapper.ts:126-142 | A block with one parent is listed as often as the parent is, times the number of equal pipes between them |
| Pipelines.EqualPipesListTwice | libs/language-server/src/lib/ast/wrappers/pipeline-wrapper.ts:116-153 | Two equal pipes and nothing else: the target is listed twice |
| Pipelines.OrderedIsAcyclic | libs/language-server/src/lib/ast/wrappers/pipeline-wrapper.ts:116-153 | A graph with a topological order has no cycle |
| Pipelines.UnvisitedMeansCycle | libs/language-server/src/lib/ast/wrappers/pipeline-wrapper.ts:145-150 | A pipe left unvisited when the worklist is empty proves a directed cycle |
| InputCheck.CheckMultipleBlockInputs | libs/language-server/src/lib/validation/checks/pipeline-definition.ts:50-69 | If no starting block leads to a cycle, the walk reports each pipe below a starting block into a block with several inputs exactly once, and nothing else |
| InputCheck.AcyclicIsCovered | libs/language-server/src/lib/validation/checks/pipeline-definition.ts:50-69 | On an acyclic graph that condition holds and every pipe into a block with several inputs is below a starting block |
| InputCheck.DoCheckMultipleBlockInputs | libs/language-server/src/lib/validation/checks/pipeline-definition.ts:79-122 | The recursion terminates if no cycle is below the block, keeps the earlier marks, and adds exactly the offending pipes at or below the block |
| InputCheck.RecursionEndsIff | libs/language-server/src/lib/validation/checks/pipeline-definition.ts:79-122 | The depth of the nested calls from a block is bounded if and only if no cycle is below it; otherwise there are chains of calls of every length |
| InputCheck.NoReportsIff | libs/language-server/src/lib/validation/checks/pipeline-definition.ts:50-122 | Nothing is reported exactly if no block below a starting block has several ingoing pipes |
| InputCheck.NoReportsMeansForest | libs/language-server/src/lib/validation/checks/pipeline-definition.ts:50-122 | On an acyclic graph nothing is reported exactly if every block has at most one ingoing pipe, and then no two pipes are equal, so the sort lists every block once |
| Execution.FlowIgnoresOrder | libs/execution/src/lib/blocks/block-execution-util.ts:31-80 | The values of the data flow are the same for every topological order, given no external input or a single starting block |
| Execution.RecordedInputIsFlow | libs/execution/src/lib/blocks/block-execution-util.ts:46-60 | The recorded value of the first parent, or no input, is what the recursive data flow hands to the block |
| Execution.ExecutedFollowsInputs | libs/execution/src/lib/blocks/block-execution-util.ts:47-69 | A run that agrees with the recursive data flow executed each block on the value recorded for its first parent, and so on as stated for the loop |
| Execution.ExecuteNext | libs/execution/src/lib/blocks/block-execution-util.ts:47-78 | One iteration records what the data flow prescribes for the block; on success the context stack is as before, on failure the block stays on it |
| Execution.ExecuteBlocks | libs/execution/src/lib/blocks/block-execution-util.ts:31-80 | For every list of pipes, equal ones included: each recorded value is what the block emits on the value recorded for its first parent, on no input if that emitted nothing or there is none, and on the external input if it is the first block; execution fails at the first block in order that fails on its input; it refines the recursive data flow |
| Contexts.ExecutionContext.ExitNode | libs/execution/src/lib/execution-context.ts:68-73 | Popping needs the node on top and undoes the matching push |
| Contexts.ExecutionContext.EnterNode | libs/execution/src/lib/execution-context.ts:62-66 | Pushing makes the node the current one |
| Paths.ProcessPath | libs/execution/src/lib/types/io-types/filesystem-inmemory.ts:59-83 | The loop computes the normalised path |
| Paths.PathsStartAtTheRoot | libs/execution/src/lib/types/io-types/filesystem-inmemory.ts:59-83 | Without a separator only the empty path and the dot are accepted, and lead to the root |
| Paths.LastPartDecides | libs/execution/src/lib/types/io-types/filesystem-inmemory.ts:67-80 | A further part is appended to the normalised path if it is a name, ignored if it is empty or a dot, and removes the last name if it is dot-dot; at the root that rejects the path |
| Paths.AscentUndoesDescent | libs/execution/src/lib/types/io-types/filesystem-inmemory.ts:71-79 | A name followed by dot-dot changes nothing |
| Paths.RejectedIff | libs/execution/src/lib/types/io-types/filesystem-inmemory.ts:59-83 | A path is rejected exactly if its head is neither empty nor a dot, or some prefix steps above the root |
| Paths.NormalizedIsClean | libs/execution/src/lib/types/io-types/filesystem-inmemory.ts:59-83 | A normalised path has no empty, dot or dot-dot part after the root |
| Paths.NormalizeIsIdempotent | libs/execution/src/lib/types/io-types/filesystem-inmemory.ts:59-83 | Normalising a normalised path changes nothing |
| Paths.NormalizeComposes | libs/execution/src/lib/types/io-types/filesystem-inmemory.ts:59-83 | Normalising p followed by q equals normalising the normalised p followed by q |
| Paths.SplitUndoesJoin | libs/execution/src/lib/types/io-types/filesystem-inmemory.ts:59-62 | Splitting at the separator undoes joining with it |
| FileTree.PutKeepsUniqueNames | libs/execution/src/lib/types/io-types/filesystem-node-directory.ts:35-78 | Insertion keeps sibling directory names and sibling file names unique |
| FileTree.PutSucceedsIff | libs/execution/src/lib/types/io-types/filesystem-node-directory.ts:35-73 | Insertion succeeds exactly if the path fits the file and stores none yet |
| FileTree.PutAddsDirectories | libs/execution/src/lib/types/io-types/filesystem-node-directory.ts:35-73 | Insertion adds exactly the directories above its path, even when it fails |
| FileTree.PutStoresFile | libs/execution/src/lib/types/io-types/filesystem-node-directory.ts:35-73 | Insertion stores a file at its path if it succeeds, and no other |
| FileTree.PutChangesOneLookup | libs/execution/src/lib/types/io-types/filesystem-node-directory.ts:13-73 | A success with no directory at the path binds it; no other lookup changes, and a failure changes none |
| FileTree.DirectoriesHideFiles | libs/execution/src/lib/types/io-types/filesystem-node-directory.ts:13-73 | A concrete file that is put and stored where a directory exists, but not found |
| FileTree.RefusalsLeaveDirectories | libs/execution/src/lib/types/io-types/filesystem-node-directory.ts:52-73 | A concrete refused insertion that leaves a new directory behind |
| FileTree.LookupIsFirstOffer | libs/execution/src/lib/types/io-types/filesystem-node-directory.ts:13-73 | The map is first come, first served: a later put at a path is void, and so is one onto a directory |
| FileTree.HistoryDeterminesLookups | libs/execution/src/lib/types/io-types/filesystem-node-directory.ts:13-91 | After every sequence of insertions, lookups agree with that map, and it predicts which insertion succeeds next |
| FileSystem.Directory.GetNode | libs/execution/src/lib/types/io-types/filesystem-node-directory.ts:13-33 | Lookup in the object tree refines lookup in its abstract tree |
| FileSystem.Directory.PutNode | libs/execution/src/lib/types/io-types/filesystem-node-directory.ts:35-73 | In-place insertion refines insertion into the abstract tree |
| FileSystem.InMemoryFileSystem.GetFile | libs/execution/src/lib/types/io-types/filesystem-inmemory.ts:26-35 | Returns what the map from normalised paths to files holds after the history of insertions |
| FileSystem.InMemoryFileSystem.PutFile | libs/execution/src/lib/types/io-types/filesystem-inmemory.ts:44-53 | Rejected paths change nothing; other insertions extend the history, and succeed as the map predicts |
| ColumnIds.ColumnIndexAsCharacters | libs/language-server/src/lib/ast/wrappers/util/column-id-util.ts:10-26 | The do-while loop computes the bijective base-26 name of the index |
| ColumnIds.ColumnCharactersAsIndex | libs/language-server/src/lib/ast/wrappers/util/column-id-util.ts:28-40 | The accumulating loop computes the number that the letters denote |
| ColumnIds.ConversionsAreInverse | libs/language-server/src/lib/ast/wrappers/util/column-id-util.ts:10-40 | The two conversions are mutually inverse between naturals and non-empty strings of capital letters |
| ColumnIds.IndexOrderIsNameOrder | libs/language-server/src/lib/ast/wrappers/util/column-id-util.ts:10-40 | Index order is the order of names by length and then alphabet |
| Sheets.ResolvedRangeStaysOrdered | libs/language-server/src/lib/ast/wrappers/cell-range-wrapper.ts:113-128 | Resolving the last-marker keeps an ordered range in bounds and ordered |
| Sheets.EnumerateCellIndexes | libs/execution/src/lib/types/io-types/sheet.ts:128-146 | Enumerates exactly the cells of the range in row-major order, as many as rows times columns |
| Sheets.RowMajorIsUnique | libs/execution/src/lib/types/io-types/sheet.ts:128-146 | Row-major order leaves one possible enumeration of a range |
| Sheets.Sheet.constructor | libs/execution/src/lib/types/io-types/sheet.ts:29-34 | Counts rows, and columns as the longest row |
| Sheets.Sheet.DeleteRow | libs/execution/src/lib/types/io-types/sheet.ts:65-73 | Splices out the resolved row and keeps the counters in step |
| Sheets.Sheet.DeleteColumn | libs/execution/src/lib/types/io-types/sheet.ts:75-85 | Splices the resolved column out of every row and keeps the counters in step |
| Sheets.Sheet.WriteCell | libs/execution/src/lib/types/io-types/sheet.ts:87-92 | Changes the one cell, extending a short row, and no other; throws exactly for a row before the first, which the check of the bounds lets pass |
| Sheets.Sheet.SelectRange | libs/execution/src/lib/types/io-types/sheet.ts:94-111 | Keeps the rectangle; the row count stays right exactly if the range does not start before the first row |
| Deletion.DescendingSplicesRemove | libs/extensions/std/exec/src/text-line-deleter-executor.ts:62-64 | Splicing in strictly descending order removes exactly the named positions |
| Deletion.SpliceRemovesOne | libs/extensions/std/exec/src/text-line-deleter-executor.ts:62-64 | Splicing one element out of a list: a negative start counts from the end and stops at the front, a start past the end removes nothing |
| Deletion.DeleteTextLines | libs/extensions/std/exec/src/text-line-deleter-executor.ts:37-68 | The block reports a line beyond the end, or splices the distinct lines in descending order |
| Deletion.NamedLinesAreDeletedIff | libs/extensions/std/exec/src/text-line-deleter-executor.ts:55-64 | The result is the text without the named lines exactly if lines are numbered from 1, or every line is named |
| Deletion.LineZeroDeletesTheLast | libs/extensions/std/exec/src/text-line-deleter-executor.ts:55-64 | Line 0 of a text of two lines deletes the second line |
| SheetExecutors.OnlyOneDuplicateIsRemoved | libs/extensions/tabular/exec/src/lib/row-deleter-executor.ts:96-107 | On a sorted list the reduction, which looks up its accumulator by the input index, drops one duplicate at most |
| SheetExecutors.FirstDuplicateIsRemoved | libs/extensions/tabular/exec/src/lib/row-deleter-executor.ts:96-107 | It is the first duplicate of the sorted list that is dropped; all that come later stay |
| SheetExecutors.DeletionOrderDescendsIff | libs/extensions/tabular/exec/src/lib/row-deleter-executor.ts:66-80 | The order of deletion is strictly descending exactly if at most one of the named rows is redundant |
| SheetExecutors.RowsAreDeletedIff | libs/extensions/tabular/exec/src/lib/row-deleter-executor.ts:66-87 | Exactly the named rows disappear if and only if rows are numbered from 1, at most one entry is redundant and no column lies beyond the longest row |
| SheetExecutors.NamedThriceDeletesTwo | libs/extensions/tabular/exec/src/lib/row-deleter-executor.ts:66-87 | Row 1 of three named three times deletes the second row as well |
| SheetExecutors.DeleteRows | libs/extensions/tabular/exec/src/lib/row-deleter-executor.ts:50-88 | The block: the first row that does not exist is an error, or throws if it is spelled as a range; so does any row spelled as a range; otherwise the deletion, or its failed assertion |
| SheetExecutors.ProblemIff | libs/extensions/tabular/exec/src/lib/row-deleter-executor.ts:54-77 | The first row that does not exist is the error, unless it is spelled as a range; then it throws, as do ranges when all rows exist |
| SheetExecutors.RowExistsIff | libs/language-server/src/lib/ast/wrappers/util/cell-index.ts:37-57 | A row exists exactly if the sheet has cells and the row is not beyond the last one |
| SheetExecutors.RowsThrowIff | libs/execution/src/lib/types/io-types/sheet.ts:65-73 | Deleting rows throws exactly if one of them is beyond the last remaining row when its turn comes |
| SheetExecutors.SurplusColumnsThrow | libs/extensions/tabular/exec/src/lib/column-deleter-executor.ts:50-88 | In a sheet that counts more columns than its longest row has, the block finds each surplus column, but deleting it throws |
| SheetExecutors.SurplusCellsThrow | libs/extensions/tabular/exec/src/lib/cell-writer-executor.ts:48-90 | In such a sheet the cells of surplus columns are in bounds, but writing to one throws |
| SheetExecutors.RowsBesideSurplusThrow | libs/extensions/tabular/exec/src/lib/row-deleter-executor.ts:50-88 | In such a sheet the block finds every row, but deleting one throws |
| SheetExecutors.DeletingLongestRowLeavesSurplus | libs/execution/src/lib/types/io-types/sheet.ts:29-73 | A concrete sheet that becomes one of that kind when its longest row is deleted |
| SheetExecutors.ColumnsAreDeletedIff | libs/extensions/tabular/exec/src/lib/column-deleter-executor.ts:66-87 | Exactly the named columns disappear if and only if they lie within the longest row and at most one entry is redundant |
| SheetExecutors.DeleteColumns | libs/extensions/tabular/exec/src/lib/column-deleter-executor.ts:50-88 | The same for columns |
| SheetExecutors.ColumnExistsIff | libs/language-server/src/lib/ast/wrappers/util/cell-index.ts:37-57 | The same for the existence of columns |
| SheetExecutors.ColumnsThrowIff | libs/execution/src/lib/types/io-types/sheet.ts:75-85 | The same for the deletion of columns; without rows any deletion throws |
| SheetExecutors.WriteCells | libs/extensions/tabular/exec/src/lib/cell-writer-executor.ts:48-90 | Changes exactly the first of the enumerated cells, as many as there are values; throws exactly if one of these lies beyond the longest row or before the first row |
| SheetExecutors.WritingRowZeroThrows | libs/extensions/tabular/exec/src/lib/cell-writer-executor.ts:48-90 | Cell A0 passes all checks on every sheet that has a cell, and writing to it throws |
| Validity.OtherVariablesDoNotMatter | libs/language-server/src/lib/ast/expressions/evaluation-context.ts:65-87 | Evaluation depends on the variables that the expression mentions, and on no others |
| Validity.ExpressionsDecide | libs/execution/src/lib/constraints/executors/expression-constraint-executor.ts:23-45 | An expression constraint holds if the expression is true with the value bound to the keyword, and gives no verdict exactly if it yields no boolean |
| Validity.ListsAreComplementary | libs/execution/src/lib/constraints/executors/denylist-constraint-executor.ts:16-31 | A text meets an allowlist exactly if the list contains it, and a denylist exactly if it does not |
| Validity.TextsAreMeasuredAndMatched | libs/execution/src/lib/constraints/executors/length-constraint-executor.ts:16-34 | A text meets a length constraint if its length is within both bounds, and a regular expression if that matches it |
| Validity.RangesAreIntervals | libs/execution/src/lib/constraints/executors/range-constraint-executor.ts:16-55 | A number meets a range constraint exactly if it is strictly between the bounds or equals an inclusive one; texts count as numbers they start with |
| Validity.OtherKindsAreRejected | libs/execution/src/lib/constraints/executors/allowlist-constraint-executor.ts:20-22 | Typed constraints reject values of other kinds |
| Validity.ValidIff | libs/execution/src/lib/types/value-types/value-representation-validity.ts:45-72 | A value is valid exactly if it represents the type and meets every constraint of every type up the chain |
| Validity.FailsIff | libs/execution/src/lib/types/value-types/value-representation-validity.ts:55-69 | Checking the constraints of one type fails exactly at one that yields no boolean and that only holding ones precede |
| Validity.VerdictFailsIff | libs/execution/src/lib/types/value-types/value-representation-validity.ts:45-72 | Checking a value fails exactly if it represents the type and a constraint up the chain yields no boolean, while all of higher types and all before it in its list hold |
| ConstraintTyping.FittingConstraintsDecide | libs/language-server/src/lib/validation/checks/expression-constraint-definition.ts:22-50 | A boolean expression on a type that the value type converts to fails no operand guard, and yields no boolean only where it is undefined or unparsable |
| ConstraintTyping.TypedVerdictFailsIff | libs/language-server/src/lib/validation/checks/value-type-definition.ts:100-138 | In a validated model, checking a value of the type fails exactly at a constraint expression that is undefined or unparsable for it |
| ConstraintTyping.ZeroGetsNoVerdict | libs/execution/src/lib/constraints/executors/expression-constraint-executor.ts:23-45 | A validated constraint, 1 divided by the value equals 1, that decides every number but 0 |
| Validity.ConversionKeepsValidity | libs/execution/src/lib/types/value-types/value-representation-validity.ts:45-72 | A valid value stays valid for every type its type converts to |
| Validity.CheckConstraint | libs/execution/src/lib/constraints/executors/expression-constraint-executor.ts:23-44 | Binds the value keyword for the evaluation of the constraint; a result that is no boolean fails an assertion and leaves it bound |
| Validity.IsValidValueRepresentation | libs/execution/src/lib/types/value-types/value-representation-validity.ts:45-72 | The walk returns the verdict and restores stack and variables; a failed assertion leaves the constraint on the stack |
| Tables.DropsNamedRowsIff | libs/execution/src/lib/types/io-types/table.ts:81-97 | Dropping existing rows passes all assertions and removes exactly those rows if and only if none is listed twice |
| Tables.DroppingDistinctRows | libs/execution/src/lib/types/io-types/table.ts:91-97 | Dropping distinct rows removes them from every column and from the count |
| Tables.Table.AddColumn | libs/execution/src/lib/types/io-types/table.ts:46-49 | Adds or replaces a column of the right length and keeps the table rectangular |
| Tables.Table.AddRow | libs/execution/src/lib/types/io-types/table.ts:56-79 | Appends one value to every column; a table without columns stays without rows |
| Tables.Table.DropRow | libs/execution/src/lib/types/io-types/table.ts:81-89 | Splices one row out of every column; the table stays rectangular exactly if it had a row |
| Tables.Table.DropRows | libs/execution/src/lib/types/io-types/table.ts:91-97 | Drops the rows in descending order |
| Tables.Table.Clone | libs/execution/src/lib/types/io-types/table.ts:182-193 | A new table in the same state |
| Tables.AddedRowIsRead | libs/execution/src/lib/types/io-types/table.ts:56-134 | Reading after adding a row: the last row is the added one, and the others are as before |
| Tables.DroppedRowIsSkipped | libs/execution/src/lib/types/io-types/table.ts:81-134 | Reading after dropping a row: the later rows have moved up by one |
| Tables.RowsDetermineColumns | libs/execution/src/lib/types/io-types/table.ts:119-134 | Two tables with the same column names and equal rows have equal columns, apart from types |
| Selection.EveryEntrySurvivesOrIsDropped | libs/execution/src/lib/transforms/transform-executor.ts:96-143 | The surviving and the deleted row indexes are increasing and divide the rows between them |
| Selection.DeletingDroppedLeavesSurvivors | libs/extensions/tabular/exec/src/lib/table-transformer-executor.ts:167-169 | Deleting the dropped indexes from a list of that length leaves the surviving entries in order |
| Transforms.TransformRow | libs/execution/src/lib/transforms/transform-executor.ts:99-143 | One iteration computes the outcome of the row and unbinds the ports again; what the outcome is follows in the next row |
| Transforms.RowOutcomes | libs/execution/src/lib/transforms/transform-executor.ts:102-140 | A row is dropped if its expression has no value, kept with its value exactly if that represents the output type and meets all constraints up its chain, and fails exactly if a constraint gives no verdict or the value is invalid and not printable |
| Transforms.DoExecuteTransform | libs/execution/src/lib/transforms/transform-executor.ts:85-152 | The loop collects the values of kept rows and the indexes of dropped ones; it fails exactly if some row fails an assertion |
| Transforms.ExecuteTransform | libs/execution/src/lib/transforms/transform-executor.ts:69-83 | The same with the transform on the context stack, which is as before afterwards |
| TableTransformer.CheckInputColumnsExist | libs/extensions/tabular/exec/src/lib/table-transformer-executor.ts:135-157 | Finds the first input column that does not exist |
| TableTransformer.CheckInputColumnsMatchTransformInputTypes | libs/extensions/tabular/exec/src/lib/table-transformer-executor.ts:103-133 | Pairs columns with ports, or finds the first pair whose types do not convert |
| TableTransformer.CreateOutputTable | libs/extensions/tabular/exec/src/lib/table-transformer-executor.ts:159-171 | Clone, drop and add amount to removing the dropped rows and binding the output column |
| TableTransformer.DoExecute | libs/extensions/tabular/exec/src/lib/table-transformer-executor.ts:35-101 | The block rejects, crashes or succeeds exactly as specified, no assertion on lengths fails, and the input table is unchanged |
| TableTransformer.DroppedAreDistinct | libs/execution/src/lib/transforms/transform-executor.ts:96-143 | Deleted rows are distinct, and with the kept values they are as many as the input rows |
| TableTransformer.OutputRowsAreAligned | libs/extensions/tabular/exec/src/lib/table-transformer-executor.ts:159-171 | The k-th output row is the k-th surviving input row with the value of the transform expression in that row in the output column |
| TableTransformer.OutputTypes | libs/extensions/tabular/exec/src/lib/table-transformer-executor.ts:159-171 | The output has the columns and types of the input, but for the output column, which has the type of the output port |
| TableTransformer.SurvivingRows | libs/execution/src/lib/transforms/transform-executor.ts:117-140 | The surviving rows, in increasing order, are exactly those where the expression has a value that represents the output type and meets all constraints up its chain |
| TableTransformer.ValuesAreTheValidOnes | libs/execution/src/lib/transforms/transform-executor.ts:102-140 | The value kept for a row is that of the expression, and there is one exactly if it represents the output type and meets all constraints up its chain |
| TableTransformer.RowsAreEvaluatedOnTheirInputs | libs/execution/src/lib/transforms/transform-executor.ts:99-108 | The expression of a row is evaluated lazily with each port bound to the cell of its input column in that row |
| TableTransformer.CrashesIff | libs/execution/src/lib/transforms/transform-executor.ts:102-140 | A row fails exactly if a constraint gives no verdict on its value, or that is invalid and neither text, number nor boolean |
| TableTransformer.StepKeepsValues | libs/extensions/tabular/exec/src/lib/table-transformer-executor.ts:159-171 | One block keeps a table rectangular, with valid values in every column |
| TableTransformer.ChainsKeepTablesWellTyped | libs/extensions/tabular/exec/src/lib/table-transformer-executor.ts:88-100 | Any chain of these blocks keeps a table rectangular, drops no column and adds no row; it keeps a well-typed table well-typed and a table of valid values valid |
| TableTransformer.ChainsKeepRowsTogether | libs/extensions/tabular/exec/src/lib/table-transformer-executor.ts:159-171 | Along any chain the rows of the output come from rows of the input in the same order, and hold what these hold in every column that is never overwritten |
| TableTransformer.AcceptedInputsConform | libs/extensions/tabular/exec/src/lib/table-transformer-executor.ts:119-130 | Columns that pass the type check supply each port with representations of its type |
| TableTransformer.TypedRowsEvaluate | libs/execution/src/lib/transforms/transform-executor.ts:102-108 | A typed transform expression fails no operand guard in any row, and its values represent the output type |
| TableTransformer.TypedRowsCrashIff | libs/execution/src/lib/transforms/transform-executor.ts:102-140 | In a validated model a row crashes exactly if its value meets an undefined or unparsable constraint, or is invalid and of a type whose values are neither texts, numbers nor booleans |
| Interpretation.ParsersAreTypeCorrect | libs/execution/src/lib/types/value-types/internal-representation-parsing.ts:19-60 | What is parsed always represents the type, so the check behind the parser never rejects |
| Interpretation.ParsingIff | libs/execution/src/lib/types/value-types/internal-representation-parsing.ts:19-60 | Parsing yields a value exactly if the text spells it in the type at the end of the chain: a text is itself, booleans are spelled in any case, integers are decimals that are whole |
| Interpretation.CellIff | libs/extensions/tabular/exec/src/lib/table-interpreter-executor.ts:165-206 | A cell is read as a value exactly if the sheet row has a text in the column of the entry that spells the value, and the value meets all constraints up the chain; it fails exactly if it spells a value that a constraint gives no verdict on |
| Interpretation.GoodIff | libs/extensions/tabular/exec/src/lib/table-interpreter-executor.ts:192-206 | A cell yields a value exactly if it exists, parses to it, and the value meets all constraints up the chain |
| Interpretation.FailingIff | libs/extensions/tabular/exec/src/lib/table-interpreter-executor.ts:192-206 | In a validated model a cell aborts the block exactly if it parses to a value that a constraint is undefined or unparsable for |
| Interpretation.ValidRowIff | libs/extensions/tabular/exec/src/lib/table-interpreter-executor.ts:157-190 | A row is read exactly if all its needed cells are read, and then holds their values; it crashes exactly if some needed cell fails |
| Interpretation.RepeatedNamesReadNothing | libs/extensions/tabular/exec/src/lib/table-interpreter-executor.ts:188-189 | If two columns share a name the final assertion keeps any row from being read |
| Interpretation.ConstructAndValidateTableRow | libs/extensions/tabular/exec/src/lib/table-interpreter-executor.ts:157-190 | The loop over the column entries computes the outcome of the row, which CellIff and ValidRowIff describe in terms of the sheet |
| Interpretation.ConstructAndValidateTable | libs/extensions/tabular/exec/src/lib/table-interpreter-executor.ts:118-155 | The loop over the sheet rows builds the specified table and leaves the context as it was |
| Interpretation.ReadRowsAreTheValidOnes | libs/extensions/tabular/exec/src/lib/table-interpreter-executor.ts:134-153 | The rows read are, in order, exactly the rows after the header whose needed cells all hold texts that spell valid values |
| Interpretation.CrashesIff | libs/extensions/tabular/exec/src/lib/table-interpreter-executor.ts:134-206 | Interpreting crashes exactly if some needed cell after the header spells a value that a constraint gives no verdict on, whatever the other cells of its row hold |
| Interpretation.TableCellsAreParsedCells | libs/extensions/tabular/exec/src/lib/table-interpreter-executor.ts:118-155 | Each cell of the table is what the text in the sheet, in the column of the entry and in the row read, spells in the type of the column, and it meets all constraints |
| Interpretation.InterpretedTableIsValid | libs/extensions/tabular/exec/src/lib/table-interpreter-executor.ts:118-155 | The table is rectangular and all its values are valid for their column types |
| Interpretation.FindHeader | libs/extensions/tabular/exec/src/lib/table-interpreter-executor.ts:237-239 | Finds the first header cell with the name, if there is one |
| Interpretation.DeriveColumnDefinitionEntriesFromHeader | libs/extensions/tabular/exec/src/lib/table-interpreter-executor.ts:228-260 | Matches definitions with the header and omits those it does not contain |
| Interpretation.EntriesFollowDefinitions | libs/extensions/tabular/exec/src/lib/table-interpreter-executor.ts:208-260 | Entries keep the order, names and types of the definitions; with a header exactly those named in it, each at the first cell that holds its name; without one, each at its own position |
| Interpretation.DoExecute | libs/extensions/tabular/exec/src/lib/table-interpreter-executor.ts:47-116 | The two errors of the block occur exactly in their cases, and otherwise the table is the specified one |
| Imports.AnalyzeImportChain | libs/language-server/src/lib/validation/checks/import-definition.ts:195-243 | The recursion terminates on every import graph; it visits documents once and explores them fully, and returns one cyclic trace for every traversed import beyond the first to each document, which ends at an import whose target was visited before or is that of another traversed import |
| Imports.CyclicIffImportedTwice | libs/language-server/src/lib/validation/checks/import-definition.ts:195-243 | Some trace is cyclic exactly if a reachable document is the target of two traversed imports, the analysed one included |
| Imports.CheckCyclicImportChain | libs/language-server/src/lib/validation/checks/import-definition.ts:163-188 | Reports exactly in that case; the path follows imports from the analysed one to one that shares its target with another traversed import |
| Imports.ReachableCyclesAreReported | libs/language-server/src/lib/validation/checks/import-definition.ts:195-243 | Every import cycle that can be reached is reported |
| Imports.DiamondsAreReportedToo | libs/language-server/src/lib/validation/checks/import-definition.ts:216-225 | A concrete workspace without any cycle that is reported, because two documents import a third |

## Left out

- Floating point: rounding, overflow, not-a-number, negative zero and the limit of safe integers. Numbers are exact, and the index that stands for "last" is a marker of its own.
- Real powers, roots, number parsing, case mapping and regular expressions are parameters of the model (`Library`, `Model`): the results are taken as given, and the laws say which arguments they are asked for.
- Equality of regular expressions, ranges, constraints and other nodes is structural here and by reference in the code; typed expressions only compare booleans, texts and numbers.
- Incomplete syntax trees and unresolved references: the model starts from linked expressions and definitions.
- Runtime parameters as values of properties, and block type properties without a value.
- Executors of blocks other than those listed (HTTP, files, archives, spreadsheets, databases, GTFS): in the execution of a pipeline each block is a pure function of its input.
- Composite blocks, which run a pipeline inside a block.
- InputCheck.CheckMultipleBlockInputs: requires that no starting block leads to a cycle, since the recursion of the code does not end there (`InputCheck.RecursionEndsIff`).
- SheetExecutors.WriteCells: requires a range in one dimension, as an assertion of the code does, and from top-left to bottom-right, as validation demands; columns are not negative, as column names denote no negative index.
- SheetExecutors.ColumnsAreDeletedIff: column indexes are not negative, as column names denote no negative index.
- Transforms.ExecuteTransform: requires that the value keyword is not bound, as it is only while a constraint is checked, and that the transform has one output port.
- TableTransformer.DoExecute: requires as many input columns as input ports, which validation checks.
- Tables.Table.AddColumn: the assertion on the length of the column is a precondition; the block that adds columns is shown to meet it. A column is a value, so sharing of a column object between tables is not captured.
- The order of the columns of a table, which matters for the text of SQL statements only.
- The relation `isSubtypeOf`, registries, wrapper factories, documentation builders, SQL text, logging, debugging and the language server.
- The evaluation of the properties of typed constraints from their definitions: the properties are values here.
