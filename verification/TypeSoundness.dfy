/** Well-typed expressions do not fail an operand guard, and evaluate to values of their type. */
module TypeSoundness {
  import opened Common
  import opened ValueTypes
  import opened TypeJoin
  import opened Expressions

  /** Every bound variable holds a representation of its declared type. */
  ghost predicate Conforms(ctx: TypingContext, env: Env) {
    && (forall x :: x in ctx.variables && x in env.variables ==>
          IsRepresentation(ctx.hierarchy, ctx.variables[x], env.variables[x]))
    && (ctx.keyword.Some? && env.keyword.Some? ==>
          IsRepresentation(ctx.hierarchy, ctx.keyword.value, env.keyword.value))
  }

  ghost predicate Sound(h: Hierarchy, t: ValueType, o: Outcome) {
    match o
    case Val(v) => IsRepresentation(h, t, v)
    case Undef => true
    case ParseError => true
    case AssertionFailed => false
  }

  lemma IntegerWitness(x: real, i: int)
    requires x == i as real
    ensures IsInteger(x)
  {}

  lemma IntegerProduct(i: int, j: int)
    ensures (i * j) as real == i as real * j as real
  {}

  lemma ProductIsInteger(x: real, y: real)
    requires IsInteger(x) && IsInteger(y)
    ensures IsInteger(Product(x, y))
  {
    IntegerProduct(x.Floor, y.Floor);
    assert Product(x, y) == (x.Floor * y.Floor) as real;
    IntegerWitness(Product(x, y), x.Floor * y.Floor);
  }

  lemma IntegerArithmetic(lib: Library, op: BinaryOperator, x: real, y: real)
    requires op.Times? || op.Add? || op.Subtract?
    requires IsInteger(x) && IsInteger(y)
    ensures Arithmetic(lib, op, x, y).Some? && IsInteger(Arithmetic(lib, op, x, y).value)
  {
    match op
    case Times => ProductIsInteger(x, y);
    case Add => IntegerWitness(x + y, x.Floor + y.Floor);
    case Subtract => IntegerWitness(x - y, x.Floor - y.Floor);
  }

  lemma UnaryIsSound(lib: Library, h: Hierarchy, op: UnaryOperator, t: ValueType, o: Outcome)
    requires UnaryType(h, op, t).Some? && Sound(h, t, o)
    ensures Sound(h, UnaryType(h, op, t).value, UnaryOutcome(lib, op, o))
  {
    if o.Val? {
      ConversionKeepsRepresentation(h, t, ExpectedOperand(op), o.v);
      if op.Minus? {
        NegationKeepsType(h, t, o.v);
      }
    }
  }

  lemma {:induction false} NegationKeepsType(h: Hierarchy, t: ValueType, v: Value)
    requires IsRepresentation(h, t, v) && v.NumV?
    ensures IsRepresentation(h, t, NumV(-v.n))
    decreases Height(h, t)
  {
    if t.AtomicType? {
      NegationKeepsType(h, GetSupertype(h, t).value, v);
    } else if t.IntegerType? {
      IntegerWitness(-v.n, -v.n.Floor);
    }
  }

  lemma OperandsAreGuarded(h: Hierarchy, op: BinaryOperator, t: ValueType, u: ValueType, l: Value, r: Value)
    requires BinaryType(h, op, t, u).Some? && IsRepresentation(h, t, l) && IsRepresentation(h, u, r)
    ensures LeftGuard(op, l) && RightGuard(op, r)
  {
    if !op.Equal? && !op.NotEqual? && !op.In? {
      ConversionKeepsRepresentation(h, t, ExpectedOperands(op).0, l);
      ConversionKeepsRepresentation(h, u, ExpectedOperands(op).1, r);
    }
  }

  lemma ArithmeticIsSound(lib: Library, h: Hierarchy, op: BinaryOperator, t: ValueType, u: ValueType, l: Value,
                          r: Value)
    requires IsArithmetic(op) && BinaryType(h, op, t, u).Some?
    requires IsRepresentation(h, t, l) && IsRepresentation(h, u, r) && l.NumV? && r.NumV?
    ensures Sound(h, BinaryType(h, op, t, u).value, ApplyBinary(lib, op, l, r))
  {
    if (op.Times? || op.Add? || op.Subtract?) && t.IntegerType? && u.IntegerType? {
      IntegerArithmetic(lib, op, l.n, r.n);
    }
  }

  lemma ApplicationIsSound(lib: Library, h: Hierarchy, op: BinaryOperator, t: ValueType, u: ValueType, l: Value,
                           r: Value)
    requires BinaryType(h, op, t, u).Some? && IsRepresentation(h, t, l) && IsRepresentation(h, u, r)
    ensures LeftGuard(op, l) && RightGuard(op, r)
    ensures Sound(h, BinaryType(h, op, t, u).value, ApplyBinary(lib, op, l, r))
  {
    OperandsAreGuarded(h, op, t, u, l, r);
    if IsArithmetic(op) {
      ArithmeticIsSound(lib, h, op, t, u, l, r);
    } else {
      assert BinaryType(h, op, t, u) == Some(BooleanType);
    }
  }

  lemma BinaryIsSound(lib: Library, h: Hierarchy, op: BinaryOperator, strategy: Strategy,
                      t: ValueType, u: ValueType, l: Outcome, r: Outcome)
    requires BinaryType(h, op, t, u).Some? && Sound(h, t, l) && Sound(h, u, r)
    ensures Sound(h, BinaryType(h, op, t, u).value, BinaryOutcome(lib, op, strategy, l, r))
  {
    if l.Val? && (op.And? || op.Or?) {
      ConversionKeepsRepresentation(h, t, BooleanType, l.v);
    }
    if l.Val? && r.Val? {
      ApplicationIsSound(lib, h, op, t, u, l.v, r.v);
    }
  }

  lemma ReplaceIsSound(lib: Library, h: Hierarchy, strategy: Strategy,
                       t: ValueType, u: ValueType, w: ValueType, x: Outcome, y: Outcome, z: Outcome)
    requires ReplaceType(h, t, u, w).Some? && Sound(h, t, x) && Sound(h, u, y) && Sound(h, w, z)
    ensures Sound(h, TextType, ReplaceOutcome(lib, strategy, x, y, z))
  {
    if x.Val? { ConversionKeepsRepresentation(h, t, TextType, x.v); }
    if y.Val? { ConversionKeepsRepresentation(h, u, RegexType, y.v); }
    if z.Val? { ConversionKeepsRepresentation(h, w, TextType, z.v); }
  }

  lemma PrependIsSound(h: Hierarchy, t: ValueType, elem: ValueType, o: Outcome, rest: Outcome)
    requires IsConvertibleTo(h, t, elem) && Sound(h, t, o) && Sound(h, CollectionType(elem), rest)
    ensures Sound(h, CollectionType(elem), Prepend(o, rest))
  {
    if o.Val? {
      ConversionKeepsRepresentation(h, t, elem, o.v);
      if rest.Val? {
        assert forall v :: v in [o.v] + rest.v.elements ==> v == o.v || v in rest.v.elements;
      }
    }
  }

  /** Type soundness, for every expression and under both strategies. */
  lemma {:induction false} InferenceIsSound(lib: Library, ctx: TypingContext, env: Env, e: Expression,
                                            strategy: Strategy)
    requires ctx.Valid() && Conforms(ctx, env) && Infer(ctx, e).Some?
    ensures Sound(ctx.hierarchy, Infer(ctx, e).value, Evaluate(lib, env, e, strategy))
    decreases e, 1
  {
    var h := ctx.hierarchy;
    match e
    case CollectionLiteral(values) =>
      var types := InferAll(ctx, values).value;
      if |types| > 0 {
        JoinIsLeastUpperBound(h, types);
        ElementsAreSound(lib, ctx, env, values, strategy, Join(h, types).value);
      }
    case ValueKeyword(lengthAccess) =>
      if env.keyword.Some? && lengthAccess {
        ConversionKeepsRepresentation(h, ctx.keyword.value, TextType, env.keyword.value);
      }
    case Unary(op, a) =>
      InferenceIsSound(lib, ctx, env, a, strategy);
      UnaryIsSound(lib, h, op, Infer(ctx, a).value, Evaluate(lib, env, a, strategy));
    case Binary(op, a, b) =>
      InferenceIsSound(lib, ctx, env, a, strategy);
      InferenceIsSound(lib, ctx, env, b, strategy);
      BinaryIsSound(lib, h, op, strategy, Infer(ctx, a).value, Infer(ctx, b).value,
                    Evaluate(lib, env, a, strategy), Evaluate(lib, env, b, strategy));
    case Replace(a, b, c) =>
      InferenceIsSound(lib, ctx, env, a, strategy);
      InferenceIsSound(lib, ctx, env, b, strategy);
      InferenceIsSound(lib, ctx, env, c, strategy);
      ReplaceIsSound(lib, h, strategy, Infer(ctx, a).value, Infer(ctx, b).value, Infer(ctx, c).value,
                     Evaluate(lib, env, a, strategy), Evaluate(lib, env, b, strategy), Evaluate(lib, env, c, strategy));
    case _ =>
  }

  lemma {:induction false} ElementsAreSound(lib: Library, ctx: TypingContext, env: Env, es: seq<Expression>,
                                            strategy: Strategy, elem: ValueType)
    requires ctx.Valid() && Conforms(ctx, env) && InferAll(ctx, es).Some?
    requires UpperBound(ctx.hierarchy, InferAll(ctx, es).value, elem)
    ensures Sound(ctx.hierarchy, CollectionType(elem), EvaluateAll(lib, env, es, strategy))
    decreases es, 0
  {
    if |es| > 0 {
      var types := InferAll(ctx, es).value;
      assert types[0] in types;
      assert forall t :: t in types[1..] ==> t in types;
      InferenceIsSound(lib, ctx, env, es[0], strategy);
      ElementsAreSound(lib, ctx, env, es[1..], strategy, elem);
      PrependIsSound(ctx.hierarchy, types[0], elem,
                     Evaluate(lib, env, es[0], strategy), EvaluateAll(lib, env, es[1..], strategy));
    }
  }

  /** A property whose expression fits its declared type passes the check of its evaluated value. */
  lemma PropertyValuesFitTheirType(lib: Library, ctx: TypingContext, env: Env, e: Expression, t: ValueType)
    requires ctx.Valid() && Conforms(ctx, env) && Infer(ctx, e).Some?
    requires IsConvertibleTo(ctx.hierarchy, Infer(ctx, e).value, t)
    ensures Sound(ctx.hierarchy, t, Evaluate(lib, env, e, Lazy))
  {
    InferenceIsSound(lib, ctx, env, e, Lazy);
    if Evaluate(lib, env, e, Lazy).Val? {
      ConversionKeepsRepresentation(ctx.hierarchy, Infer(ctx, e).value, t, Evaluate(lib, env, e, Lazy).v);
    }
  }
}
