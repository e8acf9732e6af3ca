/**
 * What validation promises of expression constraints: they are attached to value types that convert
 * to the type they are declared on, and their expressions are boolean. Typed constraints always
 * yield a boolean, so nothing is asked of them.
 */
module ConstraintTyping {
  import opened Common
  import opened ValueTypes
  import opened Expressions
  import opened TypeSoundness
  import opened Validity

  /** Inside a constraint there are no variables, and the value keyword has the type the constraint is on. */
  ghost function KeywordContext(h: Hierarchy, on: ValueType): (ctx: TypingContext)
    requires Rooted(h, on)
    ensures ctx.Valid()
  {
    TypingContext(h, map[], Some(on))
  }

  ghost predicate IsBooleanOn(h: Hierarchy, on: ValueType, e: Expression) {
    && Rooted(h, on)
    && Infer(KeywordContext(h, on), e).Some?
    && IsConvertibleTo(h, Infer(KeywordContext(h, on), e).value, BooleanType)
  }

  /** The constraint may be attached to the type. */
  ghost predicate Fits(h: Hierarchy, t: ValueType, c: Constraint) {
    c.ExpressionConstraint? ==> IsConvertibleTo(h, t, c.on) && IsBooleanOn(h, c.on, c.expression)
  }

  /** All value type definitions have passed validation. */
  ghost predicate TypedConstraints(m: Model) {
    forall d: DefinitionId, c: nat :: c in m.constraintsOf(d) ==> Fits(m.hierarchy, AtomicType(d), m.constraint(c))
  }

  /** The expression of the constraint is undefined for the value, or throws a parse error. */
  predicate Undecided(m: Model, c: nat, v: Value) {
    m.constraint(c).ExpressionConstraint?
    && var o := Evaluate(m.library, Env(map[], Some(v)), m.constraint(c).expression, Lazy);
       o.Undef? || o.ParseError?
  }

  /** A fitting constraint fails no operand guard, and is without verdict only where its expression has no value. */
  lemma FittingConstraintsDecide(m: Model, t: ValueType, c: nat, v: Value)
    requires Fits(m.hierarchy, t, m.constraint(c)) && IsRepresentation(m.hierarchy, t, v)
    ensures m.constraint(c).ExpressionConstraint? ==>
              !Evaluate(m.library, Env(map[], Some(v)), m.constraint(c).expression, Lazy).AssertionFailed?
    ensures Holds(m, m.constraint(c), v).None? <==> Undecided(m, c, v)
  {
    var constraint := m.constraint(c);
    if constraint.ExpressionConstraint? {
      var ctx, env := KeywordContext(m.hierarchy, constraint.on), Env(map[], Some(v));
      ConversionKeepsRepresentation(m.hierarchy, t, constraint.on, v);
      InferenceIsSound(m.library, ctx, env, constraint.expression, Lazy);
      var o := Evaluate(m.library, env, constraint.expression, Lazy);
      if o.Val? {
        ConversionKeepsRepresentation(m.hierarchy, Infer(ctx, constraint.expression).value, BooleanType, o.v);
      }
    }
  }

  /** A value of a type represents every type up its chain. */
  lemma {:induction false} RepresentsAncestors(h: Hierarchy, t: ValueType, v: Value, n: nat)
    requires Rooted(h, t) && IsRepresentation(h, t, v) && Ancestor(h, t, n).Some?
    ensures IsRepresentation(h, Ancestor(h, t, n).value, v)
    decreases n
  {
    if n > 0 { RepresentsAncestors(h, GetSupertype(h, t).value, v, n - 1); }
  }

  /** The walk down the chain is stuck at a constraint whose expression has no value. */
  ghost predicate UndecidedAt(m: Model, t: ValueType, v: Value, n: nat, k: nat) {
    FailsAt(m, t, v, n, k) && Undecided(m, m.constraintsOf(Ancestor(m.hierarchy, t, n).value.definition)[k], v)
  }

  lemma FailuresAreUndecided(m: Model, t: ValueType, v: Value, n: nat, k: nat)
    requires TypedConstraints(m) && Rooted(m.hierarchy, t) && IsRepresentation(m.hierarchy, t, v)
    ensures FailsAt(m, t, v, n, k) <==> UndecidedAt(m, t, v, n, k)
  {
    if FailsAt(m, t, v, n, k) {
      var a := Ancestor(m.hierarchy, t, n).value;
      var c := m.constraintsOf(a.definition)[k];
      RepresentsAncestors(m.hierarchy, t, v, n);
      assert c in m.constraintsOf(a.definition);
      FittingConstraintsDecide(m, a, c, v);
    }
  }

  /**
   * In a validated model, checking a value of the type fails an assertion exactly if a constraint
   * expression up the chain is undefined or unparsable for it when all checked before it hold.
   */
  lemma TypedVerdictFailsIff(m: Model, t: ValueType, v: Value)
    requires TypedConstraints(m) && Rooted(m.hierarchy, t) && IsRepresentation(m.hierarchy, t, v)
    ensures Verdict(m, t, v).None? <==> exists n: nat, k: nat :: UndecidedAt(m, t, v, n, k)
  {
    VerdictFailsIff(m, t, v);
    if n: nat, k: nat :| FailsAt(m, t, v, n, k) {
      FailuresAreUndecided(m, t, v, n, k);
    }
    if n: nat, k: nat :| UndecidedAt(m, t, v, n, k) {
      FailuresAreUndecided(m, t, v, n, k);
    }
  }

  /** The constraint `1 / value == 1` on decimals. */
  const RECIPROCAL := Binary(Equal, Binary(Divide, NumericLiteral(1.0), ValueKeyword(false)), NumericLiteral(1.0))

  /** A model with one value type, of decimals that meet that constraint. */
  function ReciprocalModel(lib: Library, parseFloat: string -> Option<real>): Model {
    Model(lib, parseFloat, map[0 := DecimalType], d => if d == 0 then [0] else [],
          c => ExpressionConstraint(DecimalType, RECIPROCAL))
  }

  lemma ReciprocalIsRooted(lib: Library, parseFloat: string -> Option<real>)
    ensures var h := ReciprocalModel(lib, parseFloat).hierarchy;
            Rooted(h, AtomicType(0)) && GetSupertype(h, AtomicType(0)) == Some(DecimalType)
  {
    var h := ReciprocalModel(lib, parseFloat).hierarchy;
    assert DeclaredSupertype(h, AtomicType(0)) == Some(DecimalType);
    assert Ancestor(h, DecimalType, 0) == Some(DecimalType);
    assert PrimitiveAfter(h, AtomicType(0), 1);
    RootedIffChainReachesPrimitive(h, AtomicType(0));
  }

  lemma ReciprocalIsBoolean(h: Hierarchy)
    ensures Infer(KeywordContext(h, DecimalType), RECIPROCAL) == Some(BooleanType)
  {
    var quotient := Binary(Divide, NumericLiteral(1.0), ValueKeyword(false));
    assert IsConvertibleTo(h, IntegerType, DecimalType);
    assert Infer(KeywordContext(h, DecimalType), quotient) == Some(DecimalType);
  }

  lemma ReciprocalIsTyped(lib: Library, parseFloat: string -> Option<real>)
    ensures var m := ReciprocalModel(lib, parseFloat);
            m.WellScoped() && TypedConstraints(m)
  {
    ReciprocalIsRooted(lib, parseFloat);
    ReciprocalIsBoolean(ReciprocalModel(lib, parseFloat).hierarchy);
  }

  lemma ReciprocalHolds(lib: Library, parseFloat: string -> Option<real>, x: real)
    ensures var m := ReciprocalModel(lib, parseFloat);
            AllHold(m, [0], NumV(x)) == if x == 0.0 then None else Some(1.0 / x == 1.0)
  {
    var m := ReciprocalModel(lib, parseFloat);
    var env := Env(map[], Some(NumV(x)));
    var quotient := Binary(Divide, NumericLiteral(1.0), ValueKeyword(false));
    assert Evaluate(lib, env, ValueKeyword(false), Lazy) == Val(NumV(x));
    assert Evaluate(lib, env, quotient, Lazy) == if x == 0.0 then Undef else Val(NumV(1.0 / x));
    assert AllHold(m, [], NumV(x)) == Some(true) && [0][1..] == [];
  }

  /** That model passes validation; it accepts 1 and rejects other numbers, except that 0 gets no verdict. */
  lemma ZeroGetsNoVerdict(lib: Library, parseFloat: string -> Option<real>, x: real)
    ensures var m := ReciprocalModel(lib, parseFloat);
            && m.WellScoped() && TypedConstraints(m) && Rooted(m.hierarchy, AtomicType(0))
            && Verdict(m, AtomicType(0), NumV(x)) == if x == 0.0 then None else Some(x == 1.0)
  {
    ReciprocalIsTyped(lib, parseFloat);
    ReciprocalIsRooted(lib, parseFloat);
    ReciprocalHolds(lib, parseFloat, x);
    if x != 0.0 { QuotientIsOne(x); }
  }

  lemma QuotientIsOne(x: real)
    requires x != 0.0
    ensures 1.0 / x == 1.0 <==> x == 1.0
  {}
}
