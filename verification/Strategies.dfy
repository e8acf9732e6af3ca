/** How the short-circuiting strategy relates to the one that evaluates every operand. */
module Strategies {
  import opened ValueTypes
  import opened Expressions
  import opened TypeSoundness

  /** A value found by evaluating everything is the value found lazily, for every expression. */
  lemma {:induction false} LazyKeepsValues(lib: Library, env: Env, e: Expression)
    requires Evaluate(lib, env, e, Exhaustive).Val?
    ensures Evaluate(lib, env, e, Lazy) == Evaluate(lib, env, e, Exhaustive)
    decreases e, 1
  {
    match e
    case CollectionLiteral(values) => LazyKeepsElementValues(lib, env, values);
    case Unary(_, a) => LazyKeepsValues(lib, env, a);
    case Binary(_, a, b) =>
      LazyKeepsValues(lib, env, a);
      LazyKeepsValues(lib, env, b);
    case Replace(a, b, c) =>
      LazyKeepsValues(lib, env, a);
      LazyKeepsValues(lib, env, b);
      LazyKeepsValues(lib, env, c);
    case _ =>
  }

  lemma {:induction false} LazyKeepsElementValues(lib: Library, env: Env, es: seq<Expression>)
    requires EvaluateAll(lib, env, es, Exhaustive).Val?
    ensures EvaluateAll(lib, env, es, Lazy) == EvaluateAll(lib, env, es, Exhaustive)
    decreases es, 0
  {
    if |es| > 0 {
      LazyKeepsValues(lib, env, es[0]);
      LazyKeepsElementValues(lib, env, es[1..]);
    }
  }

  predicate TextOrRegex(h: Hierarchy, t: ValueType) {
    IsConvertibleTo(h, t, TextType) || IsConvertibleTo(h, t, RegexType)
  }

  lemma {:induction false} NumbersAreNotText(h: Hierarchy, t: ValueType)
    requires IsConvertibleTo(h, t, DecimalType)
    ensures !TextOrRegex(h, t)
    decreases Height(h, t)
  {
    if t.AtomicType? { NumbersAreNotText(h, GetSupertype(h, t).value); }
  }

  lemma BinaryResultsAreNotText(h: Hierarchy, op: BinaryOperator, t: ValueType, u: ValueType)
    requires BinaryType(h, op, t, u).Some?
    ensures !TextOrRegex(h, BinaryType(h, op, t, u).value)
  {}

  /** No operator that yields text or a pattern skips an operand or throws. */
  lemma {:induction false} TextIgnoresStrategy(lib: Library, ctx: TypingContext, env: Env, e: Expression)
    requires ctx.Valid() && Conforms(ctx, env)
    requires Infer(ctx, e).Some? && TextOrRegex(ctx.hierarchy, Infer(ctx, e).value)
    ensures Evaluate(lib, env, e, Lazy) == Evaluate(lib, env, e, Exhaustive)
    ensures !Evaluate(lib, env, e, Lazy).Thrown()
    decreases e
  {
    InferenceIsSound(lib, ctx, env, e, Lazy);
    match e
    case Unary(op, a) =>
      if op.Plus? || op.Minus? {
        NumbersAreNotText(ctx.hierarchy, Infer(ctx, a).value);
      } else {
        TextIgnoresStrategy(lib, ctx, env, a);
      }
    case Binary(op, a, b) =>
      BinaryResultsAreNotText(ctx.hierarchy, op, Infer(ctx, a).value, Infer(ctx, b).value);
    case Replace(a, b, c) =>
      TextIgnoresStrategy(lib, ctx, env, a);
      TextIgnoresStrategy(lib, ctx, env, b);
      TextIgnoresStrategy(lib, ctx, env, c);
    case _ =>
  }

  lemma UnaryKeepsThrows(lib: Library, op: UnaryOperator, lazy: Outcome, exhaustive: Outcome)
    requires lazy.Thrown() ==> exhaustive.Thrown()
    requires ExpectedOperand(op).TextType? ==> lazy == exhaustive
    requires UnaryOutcome(lib, op, lazy).Thrown() && !UnaryOutcome(lib, op, lazy).AssertionFailed?
    ensures UnaryOutcome(lib, op, exhaustive).Thrown()
  {}

  lemma BinaryKeepsThrows(lib: Library, op: BinaryOperator, l: Outcome, r: Outcome, l': Outcome, r': Outcome)
    requires l.Thrown() ==> l'.Thrown()
    requires r.Thrown() ==> r'.Thrown()
    requires BinaryOutcome(lib, op, Lazy, l, r).Thrown() && !BinaryOutcome(lib, op, Lazy, l, r).AssertionFailed?
    ensures BinaryOutcome(lib, op, Exhaustive, l', r').Thrown()
  {}

  /** In a well-typed expression, whatever makes lazy evaluation throw makes exhaustive evaluation throw. */
  lemma {:induction false} LazyThrowsOnlyIfExhaustiveThrows(lib: Library, ctx: TypingContext, env: Env, e: Expression)
    requires ctx.Valid() && Conforms(ctx, env) && Infer(ctx, e).Some?
    requires Evaluate(lib, env, e, Lazy).Thrown()
    ensures Evaluate(lib, env, e, Exhaustive).Thrown()
    decreases e, 1
  {
    InferenceIsSound(lib, ctx, env, e, Lazy);
    match e
    case CollectionLiteral(values) => LazyElementThrows(lib, ctx, env, values);
    case Unary(op, a) =>
      if Evaluate(lib, env, a, Lazy).Thrown() { LazyThrowsOnlyIfExhaustiveThrows(lib, ctx, env, a); }
      if ExpectedOperand(op).TextType? { TextIgnoresStrategy(lib, ctx, env, a); }
      UnaryKeepsThrows(lib, op, Evaluate(lib, env, a, Lazy), Evaluate(lib, env, a, Exhaustive));
    case Binary(op, a, b) =>
      if Evaluate(lib, env, a, Lazy).Thrown() { LazyThrowsOnlyIfExhaustiveThrows(lib, ctx, env, a); }
      if Evaluate(lib, env, b, Lazy).Thrown() { LazyThrowsOnlyIfExhaustiveThrows(lib, ctx, env, b); }
      BinaryKeepsThrows(lib, op, Evaluate(lib, env, a, Lazy), Evaluate(lib, env, b, Lazy),
                        Evaluate(lib, env, a, Exhaustive), Evaluate(lib, env, b, Exhaustive));
    case Replace(a, b, c) =>
      TextIgnoresStrategy(lib, ctx, env, a);
      TextIgnoresStrategy(lib, ctx, env, b);
      TextIgnoresStrategy(lib, ctx, env, c);
    case _ =>
  }

  lemma {:induction false} LazyElementThrows(lib: Library, ctx: TypingContext, env: Env, es: seq<Expression>)
    requires ctx.Valid() && Conforms(ctx, env) && InferAll(ctx, es).Some?
    requires EvaluateAll(lib, env, es, Lazy).Thrown()
    ensures EvaluateAll(lib, env, es, Exhaustive).Thrown()
    decreases es, 0
  {
    if |es| > 0 {
      if Evaluate(lib, env, es[0], Lazy).Thrown() { LazyThrowsOnlyIfExhaustiveThrows(lib, ctx, env, es[0]); }
      if EvaluateAll(lib, env, es[1..], Lazy).Thrown() { LazyElementThrows(lib, ctx, env, es[1..]); }
    }
  }

  /** Neither statement has a converse, and the second needs the typing. */
  lemma StrategiesDiffer(lib: Library, env: Env)
    ensures
      var undefined := Binary(Equal, Binary(Divide, NumericLiteral(1.0), NumericLiteral(0.0)), NumericLiteral(1.0));
      var skipping := Binary(And, BooleanLiteral(false), undefined);
      && Evaluate(lib, env, skipping, Lazy) == Val(BoolV(false))
      && Evaluate(lib, env, skipping, Exhaustive).Undef?
      && Evaluate(lib, env, Unary(Minus, skipping), Lazy).Thrown()
      && Evaluate(lib, env, Unary(Minus, skipping), Exhaustive).Undef?
  {
    var quotient := Binary(Divide, NumericLiteral(1.0), NumericLiteral(0.0));
    var undefined := Binary(Equal, quotient, NumericLiteral(1.0));
    forall s: Strategy ensures Evaluate(lib, env, undefined, s).Undef? {
      assert Evaluate(lib, env, quotient, s).Undef?;
    }
  }
}
