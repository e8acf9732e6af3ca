/**
 * The expression language: abstract syntax, type inference and the two-strategy evaluator.
 */
module Expressions {
  import opened Common
  import opened ValueTypes
  import opened TypeJoin

  datatype UnaryOperator =
    | Not | Plus | Minus | Sqrt | Floor | Ceil | Round
    | Lowercase | Uppercase | AsDecimal | AsInteger | AsBoolean | AsText

  datatype BinaryOperator =
    | Pow | Root | Times | Divide | Modulo | Add | Subtract
    | Matches | In | Less | LessEqual | Greater | GreaterEqual
    | Equal | NotEqual | Xor | And | Or

  /** Expressions after linking. `replace` is the only ternary operator. */
  datatype Expression =
    | TextLiteral(s: string)
    | BooleanLiteral(b: bool)
    | NumericLiteral(n: real)
    | CellRangeLiteral(range: string)
    | RegexLiteral(pattern: string)
    | AssignmentLiteral(assignment: nat)
    | CollectionLiteral(values: seq<Expression>)
    | ValueKeyword(lengthAccess: bool)
    | VariableReference(name: string)  // a transform port or block type property
    | ConstraintReference(constraint: nat)
    | TransformReference(transform: nat)
    | Unary(unaryOperator: UnaryOperator, operand: Expression)
    | Binary(binaryOperator: BinaryOperator, left: Expression, right: Expression)
    | Replace(first: Expression, second: Expression, third: Expression)

  // ---------------------------------------------------------------------------
  // Type inference
  // ---------------------------------------------------------------------------

  /** Declared types of the variables in scope, and of the `value` keyword where it is allowed. */
  datatype TypingContext = TypingContext(
    hierarchy: Hierarchy,
    variables: map<string, ValueType>,
    keyword: Option<ValueType>)
  {
    /** What validation of the value type definitions guarantees before inference runs. */
    ghost predicate Valid() {
      && (forall x :: x in variables ==> Rooted(hierarchy, variables[x]))
      && (keyword.Some? ==> Rooted(hierarchy, keyword.value))
    }
  }

  function ExpectedOperand(op: UnaryOperator): ValueType {
    match op
    case Not => BooleanType
    case Plus | Minus | Sqrt | Floor | Ceil | Round => DecimalType
    case Lowercase | Uppercase | AsDecimal | AsInteger | AsBoolean | AsText => TextType
  }

  function UnaryResult(op: UnaryOperator, operandType: ValueType): ValueType {
    match op
    case Not | AsBoolean => BooleanType
    case Plus | Minus => operandType
    case Sqrt | AsDecimal => DecimalType
    case Floor | Ceil | Round | AsInteger => IntegerType
    case Lowercase | Uppercase | AsText => TextType
  }

  function UnaryType(h: Hierarchy, op: UnaryOperator, operandType: ValueType): Option<ValueType> {
    if IsConvertibleTo(h, operandType, ExpectedOperand(op)) then Some(UnaryResult(op, operandType)) else None
  }

  predicate AllowedInEquality(t: ValueType) {
    t.BooleanType? || t.TextType? || t.IntegerType? || t.DecimalType?
  }

  predicate AllowedInMembership(t: ValueType) {
    t.TextType? || t.IntegerType? || t.DecimalType?
  }

  /** Operand types of the operators that check by conversion (all but equality and membership). */
  function ExpectedOperands(op: BinaryOperator): (ValueType, ValueType)
    requires !op.Equal? && !op.NotEqual? && !op.In?
  {
    match op
    case Xor | And | Or => (BooleanType, BooleanType)
    case Matches => (TextType, RegexType)
    case _ => (DecimalType, DecimalType)
  }

  function BinaryType(h: Hierarchy, op: BinaryOperator, l: ValueType, r: ValueType): Option<ValueType> {
    match op
    case Equal | NotEqual =>
      if !AllowedInEquality(l) || !AllowedInEquality(r) then None
      else if !IsConvertibleTo(h, l, r) && !IsConvertibleTo(h, r, l) then None
      else Some(BooleanType)
    case In =>
      if !AllowedInMembership(l) || !(r.CollectionType? && AllowedInMembership(r.elementType)) then None
      else if !IsConvertibleTo(h, l, r.elementType) && !IsConvertibleTo(h, r.elementType, l) then None
      else Some(BooleanType)
    case _ =>
      var (expectedLeft, expectedRight) := ExpectedOperands(op);
      if !IsConvertibleTo(h, l, expectedLeft) || !IsConvertibleTo(h, r, expectedRight) then None
      else
        match op
        case Times | Add | Subtract => Some(if l.IntegerType? && r.IntegerType? then IntegerType else DecimalType)
        case Pow | Root | Divide | Modulo => Some(DecimalType)
        case _ => Some(BooleanType)
  }

  function ReplaceType(h: Hierarchy, a: ValueType, b: ValueType, c: ValueType): Option<ValueType> {
    if IsConvertibleTo(h, a, TextType) && IsConvertibleTo(h, b, RegexType) && IsConvertibleTo(h, c, TextType)
    then Some(TextType) else None
  }

  function Infer(ctx: TypingContext, e: Expression): (t: Option<ValueType>)
    requires ctx.Valid()
    ensures t.Some? ==> Rooted(ctx.hierarchy, t.value)
    decreases e, 1
  {
    match e
    case TextLiteral(_) => Some(TextType)
    case BooleanLiteral(_) => Some(BooleanType)
    case NumericLiteral(n) => Some(if IsInteger(n) then IntegerType else DecimalType)
    case CellRangeLiteral(_) => Some(CellRangeType)
    case RegexLiteral(_) => Some(RegexType)
    case AssignmentLiteral(_) => Some(AssignmentType)
    case CollectionLiteral(values) =>
      (match InferAll(ctx, values)
       case None => None
       case Some(types) =>
         if |types| == 0 then Some(EmptyCollectionType)
         else
           match Join(ctx.hierarchy, types)
           case None => None
           case Some(elem) => Some(CollectionType(elem)))
    case ValueKeyword(lengthAccess) =>
      if ctx.keyword.None? then None
      else if !lengthAccess then ctx.keyword
      else if IsConvertibleTo(ctx.hierarchy, ctx.keyword.value, TextType) then Some(IntegerType)
      else None
    case VariableReference(x) => if x in ctx.variables then Some(ctx.variables[x]) else None
    case ConstraintReference(_) => Some(ConstraintType)
    case TransformReference(_) => Some(TransformType)
    case Unary(op, a) =>
      (match Infer(ctx, a)
       case None => None
       case Some(t) => UnaryType(ctx.hierarchy, op, t))
    case Binary(op, a, b) =>
      var l, r := Infer(ctx, a), Infer(ctx, b);
      if l.None? || r.None? then None else BinaryType(ctx.hierarchy, op, l.value, r.value)
    case Replace(a, b, c) =>
      var x, y, z := Infer(ctx, a), Infer(ctx, b), Infer(ctx, c);
      if x.None? || y.None? || z.None? then None else ReplaceType(ctx.hierarchy, x.value, y.value, z.value)
  }

  function InferAll(ctx: TypingContext, es: seq<Expression>): (ts: Option<seq<ValueType>>)
    requires ctx.Valid()
    ensures ts.Some? ==> |ts.value| == |es| && AllRooted(ctx.hierarchy, ts.value)
    decreases es, 0
  {
    if |es| == 0 then Some([])
    else
      var t, ts := Infer(ctx, es[0]), InferAll(ctx, es[1..]);
      if t.None? || ts.None? then None else Some([t.value] + ts.value)
  }

  // ---------------------------------------------------------------------------
  // Evaluation
  // ---------------------------------------------------------------------------

  /**
   * The parts of the run-time library whose results are taken as given: number parsing, real powers,
   * case mapping and regular expressions. A power or root without finite result is None.
   */
  datatype Library = Library(
    parseDecimal: string -> Option<real>,
    pow: (real, real) -> Option<real>,
    root: (real, real) -> Option<real>,
    sqrt: real -> real,
    lower: string -> string,
    upper: string -> string,
    matches: (string, string) -> bool,
    replace: (string, string, string) -> string)

  datatype Strategy = Lazy | Exhaustive

  datatype Env = Env(variables: map<string, Value>, keyword: Option<Value>)

  /** Undef is a failed evaluation; the other two failures are thrown. */
  datatype Outcome = Val(v: Value) | Undef | ParseError | AssertionFailed {
    predicate Thrown() { ParseError? || AssertionFailed? }
  }

  function Truncate(x: real): int { if x >= 0.0 then x.Floor else -((-x).Floor) }

  function AsciiLower(c: char): char { if 'A' <= c <= 'Z' then c + 32 as char else c }

  predicate EqualsIgnoringCase(s: string, word: string) {
    |s| == |word| && forall i :: 0 <= i < |s| ==> AsciiLower(s[i]) == word[i]
  }

  function ParseBoolean(s: string): Option<bool> {
    if EqualsIgnoringCase(s, "true") then Some(true)
    else if EqualsIgnoringCase(s, "false") then Some(false)
    else None
  }

  function ParseInteger(lib: Library, s: string): Option<real> {
    match lib.parseDecimal(s)
    case None => None
    case Some(d) => if d == Truncate(d) as real then Some(Truncate(d) as real) else None
  }

  predicate UnaryGuard(op: UnaryOperator, v: Value) {
    match op
    case Not => v.BoolV?
    case Plus | Minus | Sqrt | Floor | Ceil | Round => v.NumV?
    case Lowercase | Uppercase | AsDecimal | AsInteger | AsBoolean | AsText => v.TextV?
  }

  function ApplyUnary(lib: Library, op: UnaryOperator, v: Value): Outcome
    requires UnaryGuard(op, v)
  {
    match op
    case Not => Val(BoolV(!v.b))
    case Plus => Val(v)
    case Minus => Val(NumV(-v.n))
    case Sqrt => if v.n < 0.0 then Undef else Val(NumV(lib.sqrt(v.n)))
    case Floor => Val(NumV(v.n.Floor as real))
    case Ceil => Val(NumV((-((-v.n).Floor)) as real))
    case Round => Val(NumV((v.n + 0.5).Floor as real))
    case Lowercase => Val(TextV(lib.lower(v.s)))
    case Uppercase => Val(TextV(lib.upper(v.s)))
    case AsText => Val(v)
    case AsDecimal => (match lib.parseDecimal(v.s) case None => ParseError case Some(d) => Val(NumV(d)))
    case AsInteger => (match ParseInteger(lib, v.s) case None => ParseError case Some(i) => Val(NumV(i)))
    case AsBoolean => (match ParseBoolean(v.s) case None => ParseError case Some(b) => Val(BoolV(b)))
  }

  predicate TextOrNumber(v: Value) { v.TextV? || v.NumV? }

  predicate LeftGuard(op: BinaryOperator, v: Value) {
    match op
    case Equal | NotEqual => true
    case In => TextOrNumber(v)
    case Matches => v.TextV?
    case Xor | And | Or => v.BoolV?
    case _ => v.NumV?
  }

  predicate RightGuard(op: BinaryOperator, v: Value) {
    match op
    case Equal | NotEqual => true
    case In => v.CollectionV? && forall e :: e in v.elements ==> TextOrNumber(e)
    case Matches => v.RegexV?
    case Xor | And | Or => v.BoolV?
    case _ => v.NumV?
  }

  function Product(x: real, y: real): real { x * y }

  predicate IsArithmetic(op: BinaryOperator) {
    op.Pow? || op.Root? || op.Times? || op.Divide? || op.Modulo? || op.Add? || op.Subtract?
  }

  /** The numeric result, or None where the operator is undefined. */
  function Arithmetic(lib: Library, op: BinaryOperator, x: real, y: real): Option<real>
    requires IsArithmetic(op)
  {
    match op
    case Pow => lib.pow(x, y)
    case Root => lib.root(x, y)
    case Times => Some(Product(x, y))
    case Divide => if y == 0.0 then None else Some(x / y)
    case Modulo => if y == 0.0 then None else Some(x - y * Truncate(x / y) as real)
    case Add => Some(x + y)
    case Subtract => Some(x - y)
  }

  function ApplyBinary(lib: Library, op: BinaryOperator, l: Value, r: Value): Outcome
    requires LeftGuard(op, l) && RightGuard(op, r)
  {
    match op
    case Matches => Val(BoolV(lib.matches(l.s, r.pattern)))
    case In => Val(BoolV(l in r.elements))
    case Less => Val(BoolV(l.n < r.n))
    case LessEqual => Val(BoolV(l.n <= r.n))
    case Greater => Val(BoolV(l.n > r.n))
    case GreaterEqual => Val(BoolV(l.n >= r.n))
    case Equal => Val(BoolV(l == r))
    case NotEqual => Val(BoolV(l != r))
    case Xor => Val(BoolV(l.b != r.b))
    case And => Val(BoolV(l.b && r.b))
    case Or => Val(BoolV(l.b || r.b))
    case _ => (match Arithmetic(lib, op, l.n, r.n) case None => Undef case Some(n) => Val(NumV(n)))
  }

  /** `and` is decided by a false left operand, `or` by a true one. */
  predicate SkipsRight(op: BinaryOperator, left: bool) {
    (op.And? && !left) || (op.Or? && left)
  }

  /** Mapping over elements throws at the first throwing one; otherwise one undefined element spoils all. */
  function Prepend(o: Outcome, rest: Outcome): Outcome
    requires rest.Val? ==> rest.v.CollectionV?
  {
    if o.Thrown() then o
    else if rest.Thrown() then rest
    else if o.Undef? || rest.Undef? then Undef
    else Val(CollectionV([o.v] + rest.v.elements))
  }

  function UnaryOutcome(lib: Library, op: UnaryOperator, o: Outcome): Outcome {
    if !o.Val? then o
    else if !UnaryGuard(op, o.v) then AssertionFailed
    else ApplyUnary(lib, op, o.v)
  }

  /**
   * The outcome from those of the operands. Evaluation has no effects, so not evaluating the
   * right operand is the same as not looking at `r`.
   */
  function BinaryOutcome(lib: Library, op: BinaryOperator, strategy: Strategy, l: Outcome, r: Outcome): Outcome {
    if l.Thrown() then l
    else if (op.And? || op.Or?) && l.Val? && !l.v.BoolV? then AssertionFailed
    else if strategy.Lazy? && l.Undef? then Undef
    else if strategy.Lazy? && (op.And? || op.Or?) && SkipsRight(op, l.v.b) then Val(BoolV(op.Or?))
    else if r.Thrown() then r
    else if l.Undef? || r.Undef? then Undef
    else if !LeftGuard(op, l.v) || !RightGuard(op, r.v) then AssertionFailed
    else ApplyBinary(lib, op, l.v, r.v)
  }

  function ReplaceOutcome(lib: Library, strategy: Strategy, x: Outcome, y: Outcome, z: Outcome): Outcome {
    if x.Thrown() then x
    else if strategy.Lazy? && x.Undef? then Undef
    else if y.Thrown() then y
    else if z.Thrown() then z
    else if x.Undef? || y.Undef? || z.Undef? then Undef
    else if !x.v.TextV? || !y.v.RegexV? || !z.v.TextV? then AssertionFailed
    else Val(TextV(lib.replace(x.v.s, y.v.pattern, z.v.s)))
  }

  function Evaluate(lib: Library, env: Env, e: Expression, strategy: Strategy): Outcome
    decreases e, 1
  {
    match e
    case TextLiteral(s) => Val(TextV(s))
    case BooleanLiteral(b) => Val(BoolV(b))
    case NumericLiteral(n) => Val(NumV(n))
    case CellRangeLiteral(r) => Val(CellRangeV(r))
    case RegexLiteral(p) => Val(RegexV(p))
    case AssignmentLiteral(a) => Val(AssignmentV(a))
    case CollectionLiteral(values) => EvaluateAll(lib, env, values, strategy)
    case ValueKeyword(lengthAccess) =>
      if env.keyword.None? then Undef
      else if !lengthAccess then Val(env.keyword.value)
      else if !env.keyword.value.TextV? then AssertionFailed
      else Val(NumV(|env.keyword.value.s| as real))
    case VariableReference(x) => if x in env.variables then Val(env.variables[x]) else Undef
    case ConstraintReference(c) => Val(ConstraintV(c))
    case TransformReference(t) => Val(TransformV(t))
    case Unary(op, a) => UnaryOutcome(lib, op, Evaluate(lib, env, a, strategy))
    case Binary(op, a, b) =>
      BinaryOutcome(lib, op, strategy, Evaluate(lib, env, a, strategy), Evaluate(lib, env, b, strategy))
    case Replace(a, b, c) =>
      ReplaceOutcome(lib, strategy,
        Evaluate(lib, env, a, strategy), Evaluate(lib, env, b, strategy), Evaluate(lib, env, c, strategy))
  }

  function EvaluateAll(lib: Library, env: Env, es: seq<Expression>, strategy: Strategy): (o: Outcome)
    ensures o.Val? ==> o.v.CollectionV? && |o.v.elements| == |es|
    decreases es, 0
  {
    if |es| == 0 then Val(CollectionV([]))
    else Prepend(Evaluate(lib, env, es[0], strategy), EvaluateAll(lib, env, es[1..], strategy))
  }

  /** A collection literal has a value exactly if all its elements have, and then it is the collection of these. */
  lemma {:induction false} CollectionsEvaluatePointwise(lib: Library, env: Env, es: seq<Expression>, strategy: Strategy)
    ensures EvaluateAll(lib, env, es, strategy).Val? <==>
            forall k :: 0 <= k < |es| ==> Evaluate(lib, env, es[k], strategy).Val?
    ensures var o := EvaluateAll(lib, env, es, strategy);
            o.Val? ==> forall k :: 0 <= k < |es| ==> Evaluate(lib, env, es[k], strategy) == Val(o.v.elements[k])
    decreases |es|
  {
    if |es| > 0 {
      CollectionsEvaluatePointwise(lib, env, es[1..], strategy);
      assert forall k :: 0 < k < |es| ==> es[k] == es[1..][k - 1];
    }
  }

  /** A collection literal fails as its first throwing element does; without one, any undefined element is enough. */
  lemma {:induction false} CollectionsFailAtTheFirstThrow(lib: Library, env: Env, es: seq<Expression>,
                                                          strategy: Strategy, k: nat)
    requires k < |es| && !Evaluate(lib, env, es[k], strategy).Val?
    ensures Evaluate(lib, env, es[k], strategy).Thrown()
            && (forall j :: 0 <= j < k ==> !Evaluate(lib, env, es[j], strategy).Thrown()) ==>
              EvaluateAll(lib, env, es, strategy) == Evaluate(lib, env, es[k], strategy)
    ensures (forall j :: 0 <= j < |es| ==> !Evaluate(lib, env, es[j], strategy).Thrown()) ==>
              EvaluateAll(lib, env, es, strategy) == Undef
    decreases |es|
  {
    CollectionsEvaluatePointwise(lib, env, es[1..], strategy);
    assert forall j :: 0 < j < |es| ==> es[j] == es[1..][j - 1];
    if k > 0 {
      CollectionsFailAtTheFirstThrow(lib, env, es[1..], strategy, k - 1);
    } else if j :| 0 < j < |es| && !Evaluate(lib, env, es[j], strategy).Val? {
      CollectionsFailAtTheFirstThrow(lib, env, es[1..], strategy, j - 1);
    }
  }
}
