/**
 * When a value is valid for a value type: it is a representation of the type, and the
 * constraints of the type and of all its supertypes hold.
 */
module Validity {
  import opened Common
  import opened ValueTypes
  import opened Expressions
  import opened Simplification
  import opened Contexts

  /** An expression over the value keyword, which has the given type; or a typed constraint with its property values. */
  datatype Constraint =
    | ExpressionConstraint(on: ValueType, expression: Expression)
    | AllowlistConstraint(allowlist: seq<string>)
    | DenylistConstraint(denylist: seq<string>)
    | LengthConstraint(minLength: int, maxLength: int)
    | RangeConstraint(lowerBound: real, lowerBoundInclusive: bool, upperBound: real, upperBoundInclusive: bool)
    | RegexConstraint(pattern: string)

  /** What the linked model text and the run-time library provide. parseFloat is None for not-a-number. */
  datatype Model = Model(
    library: Library,
    parseFloat: string -> Option<real>,
    hierarchy: Hierarchy,
    constraintsOf: DefinitionId -> seq<nat>,
    constraint: nat -> Constraint)
  {
    /** Transform ports and block properties are not visible inside constraints. */
    ghost predicate WellScoped() {
      forall c: nat :: constraint(c).ExpressionConstraint? ==> MentionsOnly(constraint(c).expression, {})
    }
  }

  // ---------------------------------------------------------------------------
  // Scoping: which variables an expression mentions
  // ---------------------------------------------------------------------------

  predicate MentionsOnly(e: Expression, names: set<string>) {
    if e.CollectionLiteral? then forall v :: v in e.values ==> MentionsOnly(v, names)
    else (e.VariableReference? ==> e.name in names) && forall a :: a in Operands(e) ==> MentionsOnly(a, names)
  }

  ghost predicate AgreeOn(env: Env, other: Env, names: set<string>) {
    && env.keyword == other.keyword
    && forall x :: x in names ==>
         && (x in env.variables <==> x in other.variables)
         && (x in env.variables ==> env.variables[x] == other.variables[x])
  }

  lemma {:induction false} OtherVariablesDoNotMatter(lib: Library, env: Env, other: Env, names: set<string>,
                                                     e: Expression, s: Strategy)
    requires MentionsOnly(e, names) && AgreeOn(env, other, names)
    ensures Evaluate(lib, env, e, s) == Evaluate(lib, other, e, s)
    decreases e, 1
  {
    match e
    case CollectionLiteral(values) =>
      OtherVariablesDoNotMatterAll(lib, env, other, names, values, s);
    case Unary(op, a) =>
      assert Operands(e)[0] == a;
      OtherVariablesDoNotMatter(lib, env, other, names, a, s);
    case Binary(op, a, b) =>
      assert Operands(e)[0] == a && Operands(e)[1] == b;
      OtherVariablesDoNotMatter(lib, env, other, names, a, s);
      OtherVariablesDoNotMatter(lib, env, other, names, b, s);
    case Replace(a, b, c) =>
      assert Operands(e)[0] == a && Operands(e)[1] == b && Operands(e)[2] == c;
      OtherVariablesDoNotMatter(lib, env, other, names, a, s);
      OtherVariablesDoNotMatter(lib, env, other, names, b, s);
      OtherVariablesDoNotMatter(lib, env, other, names, c, s);
    case _ =>
  }

  lemma {:induction false} OtherVariablesDoNotMatterAll(lib: Library, env: Env, other: Env, names: set<string>,
                                                        es: seq<Expression>, s: Strategy)
    requires (forall e :: e in es ==> MentionsOnly(e, names)) && AgreeOn(env, other, names)
    ensures EvaluateAll(lib, env, es, s) == EvaluateAll(lib, other, es, s)
    decreases es, 0
  {
    if |es| > 0 {
      OtherVariablesDoNotMatter(lib, env, other, names, es[0], s);
      OtherVariablesDoNotMatterAll(lib, env, other, names, es[1..], s);
    }
  }

  // ---------------------------------------------------------------------------
  // Specification
  // ---------------------------------------------------------------------------

  /** An expression constraint that yields no boolean fails an assertion: None. */
  function AsVerdict(o: Outcome): Option<bool> {
    if o.Val? && o.v.BoolV? then Some(o.v.b) else None
  }

  predicate WithinBound(bound: real, inclusive: bool, n: real) { if inclusive then bound <= n else bound < n }

  function RangeHolds(c: Constraint, n: real): bool
    requires c.RangeConstraint?
  {
    WithinBound(c.lowerBound, c.lowerBoundInclusive, n) && WithinBound(-c.upperBound, c.upperBoundInclusive, -n)
  }

  function Holds(m: Model, c: Constraint, v: Value): Option<bool> {
    match c
    case ExpressionConstraint(_, e) => AsVerdict(Evaluate(m.library, Env(map[], Some(v)), e, Lazy))
    case AllowlistConstraint(allowlist) => Some(v.TextV? && v.s in allowlist)
    case DenylistConstraint(denylist) => Some(v.TextV? && v.s !in denylist)
    case LengthConstraint(min, max) => Some(v.TextV? && min <= |v.s| <= max)
    case RangeConstraint(_, _, _, _) =>
      if v.NumV? then Some(RangeHolds(c, v.n))
      else if v.TextV? then Some(m.parseFloat(v.s).Some? && RangeHolds(c, m.parseFloat(v.s).value))
      else Some(false)
    case RegexConstraint(pattern) => Some(v.TextV? && m.library.matches(v.s, pattern))
  }

  /** An expression constraint holds if the expression is true of the value; it has no verdict without a boolean. */
  lemma ExpressionsDecide(m: Model, on: ValueType, e: Expression, v: Value, b: bool)
    ensures Holds(m, ExpressionConstraint(on, e), v) == Some(b) <==>
            Evaluate(m.library, Env(map[], Some(v)), e, Lazy) == Val(BoolV(b))
    ensures Holds(m, ExpressionConstraint(on, e), v).None? <==>
            forall c: bool :: Evaluate(m.library, Env(map[], Some(v)), e, Lazy) != Val(BoolV(c))
  {
    var o := Evaluate(m.library, Env(map[], Some(v)), e, Lazy);
    if o.Val? && o.v.BoolV? { assert o == Val(BoolV(o.v.b)); }
  }

  /** Texts meet an allowlist if it contains them, and a denylist of the same texts otherwise. */
  lemma ListsAreComplementary(m: Model, texts: seq<string>, s: string)
    ensures Holds(m, AllowlistConstraint(texts), TextV(s)) == Some(true) <==> s in texts
    ensures Holds(m, DenylistConstraint(texts), TextV(s)) == Some(true) <==> s !in texts
    ensures Holds(m, AllowlistConstraint(texts), TextV(s)).Some? && Holds(m, DenylistConstraint(texts), TextV(s)).Some?
  {}

  lemma TextsAreMeasuredAndMatched(m: Model, min: int, max: int, pattern: string, s: string)
    ensures Holds(m, LengthConstraint(min, max), TextV(s)) == Some(min <= |s| && |s| <= max)
    ensures Holds(m, RegexConstraint(pattern), TextV(s)) == Some(m.library.matches(s, pattern))
  {}

  /** The number lies between the bounds, or on one that is inclusive. Texts count as the numbers they start with. */
  lemma RangesAreIntervals(m: Model, c: Constraint, n: real, s: string)
    requires c.RangeConstraint?
    ensures var inside := (c.lowerBound < n || (c.lowerBoundInclusive && n == c.lowerBound))
                       && (n < c.upperBound || (c.upperBoundInclusive && n == c.upperBound));
            && Holds(m, c, NumV(n)) == Some(inside)
            && (m.parseFloat(s) == Some(n) ==> Holds(m, c, TextV(s)) == Some(inside))
    ensures m.parseFloat(s).None? ==> Holds(m, c, TextV(s)) == Some(false)
  {}

  /** Typed constraints reject all values of other kinds. */
  lemma OtherKindsAreRejected(m: Model, c: Constraint, v: Value)
    requires !c.ExpressionConstraint? && !v.TextV? && (c.RangeConstraint? ==> !v.NumV?)
    ensures Holds(m, c, v) == Some(false)
  {}

  /** The first constraint that does not hold decides. */
  function AllHold(m: Model, constraints: seq<nat>, v: Value): Option<bool> {
    if |constraints| == 0 then Some(true)
    else
      match Holds(m, m.constraint(constraints[0]), v)
      case Some(true) => AllHold(m, constraints[1..], v)
      case other => other
  }

  /** None stands for the failed assertion of a constraint. */
  function Verdict(m: Model, t: ValueType, v: Value): Option<bool>
    requires Rooted(m.hierarchy, t)
    decreases Height(m.hierarchy, t)
  {
    if t.AtomicType? then
      match Verdict(m, GetSupertype(m.hierarchy, t).value, v)
      case Some(true) => AllHold(m, m.constraintsOf(t.definition), v)
      case other => other
    else Some(IsRepresentation(m.hierarchy, t, v))
  }

  /** Constraint c belongs to the type that is n `oftype` steps above t. */
  predicate Inherits(m: Model, t: ValueType, n: nat, c: nat) {
    var a := Ancestor(m.hierarchy, t, n);
    a.Some? && a.value.AtomicType? && c in m.constraintsOf(a.value.definition)
  }

  lemma {:induction false} AllHoldIff(m: Model, constraints: seq<nat>, v: Value)
    ensures AllHold(m, constraints, v) == Some(true) <==>
            forall c :: c in constraints ==> Holds(m, m.constraint(c), v) == Some(true)
    decreases |constraints|
  {
    if |constraints| > 0 { AllHoldIff(m, constraints[1..], v); }
  }

  /** Checking a list fails exactly at a constraint without verdict that only holding ones precede. */
  lemma {:induction false} FailsIff(m: Model, constraints: seq<nat>, v: Value)
    ensures AllHold(m, constraints, v).None? <==>
            exists k :: 0 <= k < |constraints| && Holds(m, m.constraint(constraints[k]), v).None?
              && forall j :: 0 <= j < k ==> Holds(m, m.constraint(constraints[j]), v) == Some(true)
    decreases |constraints|
  {
    if |constraints| > 0 {
      var rest := constraints[1..];
      FailsIff(m, rest, v);
      if Holds(m, m.constraint(constraints[0]), v) == Some(true) {
        if k :| 0 <= k < |rest| && Holds(m, m.constraint(rest[k]), v).None?
                && forall j :: 0 <= j < k ==> Holds(m, m.constraint(rest[j]), v) == Some(true) {
          assert constraints[k + 1] == rest[k];
          forall j | 0 <= j < k + 1 ensures Holds(m, m.constraint(constraints[j]), v) == Some(true) {
            if j > 0 { assert constraints[j] == rest[j - 1]; }
          }
        }
        if k :| 0 <= k < |constraints| && Holds(m, m.constraint(constraints[k]), v).None?
                && forall j :: 0 <= j < k ==> Holds(m, m.constraint(constraints[j]), v) == Some(true) {
          assert constraints[k] == rest[k - 1];
          assert forall j :: 0 <= j < k - 1 ==> rest[j] == constraints[j + 1];
        }
      }
    }
  }

  lemma InheritedFromSupertype(m: Model, t: ValueType, s: ValueType, n: nat, c: nat)
    requires DeclaredSupertype(m.hierarchy, t) == Some(s)
    ensures Inherits(m, s, n, c) <==> Inherits(m, t, n + 1, c)
    ensures Inherits(m, t, 0, c) <==> c in m.constraintsOf(t.definition)
  {}

  /** Every constraint of every type from t upwards holds. */
  ghost predicate MeetsAll(m: Model, t: ValueType, v: Value) {
    forall n: nat, c: nat :: Inherits(m, t, n, c) ==> Holds(m, m.constraint(c), v) == Some(true)
  }

  lemma MeetsAllStep(m: Model, t: ValueType, s: ValueType, v: Value)
    requires DeclaredSupertype(m.hierarchy, t) == Some(s)
    ensures MeetsAll(m, t, v) <==>
            && MeetsAll(m, s, v)
            && forall c :: c in m.constraintsOf(t.definition) ==> Holds(m, m.constraint(c), v) == Some(true)
  {
    forall n: nat, c: nat
      ensures Inherits(m, s, n, c) <==> Inherits(m, t, n + 1, c)
      ensures Inherits(m, t, 0, c) <==> c in m.constraintsOf(t.definition)
    {
      InheritedFromSupertype(m, t, s, n, c);
    }
    if MeetsAll(m, t, v) {
      forall c | c in m.constraintsOf(t.definition) ensures Holds(m, m.constraint(c), v) == Some(true) {
        assert Inherits(m, t, 0, c);
      }
      forall n: nat, c: nat | Inherits(m, s, n, c) ensures Holds(m, m.constraint(c), v) == Some(true) {
        assert Inherits(m, t, n + 1, c);
      }
    }
    forall n: nat, c: nat | Inherits(m, t, n, c) ensures n == 0 || Inherits(m, s, n - 1, c) {
      if n > 0 { InheritedFromSupertype(m, t, s, n - 1, c); }
    }
  }

  /** A value is valid exactly if it is a representation and meets every constraint up the chain. */
  lemma {:induction false} ValidIff(m: Model, t: ValueType, v: Value)
    requires Rooted(m.hierarchy, t)
    ensures Verdict(m, t, v) == Some(true) <==> IsRepresentation(m.hierarchy, t, v) && MeetsAll(m, t, v)
    decreases Height(m.hierarchy, t)
  {
    if t.AtomicType? {
      var s := GetSupertype(m.hierarchy, t).value;
      ValidIff(m, s, v);
      AllHoldIff(m, m.constraintsOf(t.definition), v);
      MeetsAllStep(m, t, s, v);
    } else {
      forall n: nat, c: nat ensures !Inherits(m, t, n, c) {
        if n > 0 { assert DeclaredSupertype(m.hierarchy, t).None?; }
      }
    }
  }

  /**
   * The walk down the chain is stuck n `oftype` steps above t, at the k-th constraint there: that
   * one yields no boolean, while all of higher types and all before it in its list hold.
   */
  ghost predicate FailsAt(m: Model, t: ValueType, v: Value, n: nat, k: nat) {
    var a := Ancestor(m.hierarchy, t, n);
    && a.Some? && a.value.AtomicType?
    && var constraints := m.constraintsOf(a.value.definition);
       k < |constraints|
       && Holds(m, m.constraint(constraints[k]), v).None?
       && (forall j :: 0 <= j < k ==> Holds(m, m.constraint(constraints[j]), v) == Some(true))
       && MeetsAllAbove(m, t, v, n)
  }

  ghost predicate MeetsAllAbove(m: Model, t: ValueType, v: Value, n: nat) {
    forall i: nat, c: nat :: i > n && Inherits(m, t, i, c) ==> Holds(m, m.constraint(c), v) == Some(true)
  }

  lemma FailsOneHigher(m: Model, t: ValueType, s: ValueType, v: Value, n: nat, k: nat)
    requires DeclaredSupertype(m.hierarchy, t) == Some(s)
    ensures FailsAt(m, t, v, n + 1, k) <==> FailsAt(m, s, v, n, k)
  {
    assert Ancestor(m.hierarchy, t, n + 1) == Ancestor(m.hierarchy, s, n);
    forall i: nat, c: nat ensures Inherits(m, s, i, c) <==> Inherits(m, t, i + 1, c) {
      InheritedFromSupertype(m, t, s, i, c);
    }
    if MeetsAllAbove(m, s, v, n) {
      forall i: nat, c: nat | i > n + 1 && Inherits(m, t, i, c) ensures Holds(m, m.constraint(c), v) == Some(true) {
        assert Inherits(m, s, i - 1, c);
      }
    }
    if MeetsAllAbove(m, t, v, n + 1) {
      forall i: nat, c: nat | i > n && Inherits(m, s, i, c) ensures Holds(m, m.constraint(c), v) == Some(true) {
        assert Inherits(m, t, i + 1, c);
      }
    }
  }

  lemma FailsInOwnList(m: Model, t: ValueType, s: ValueType, v: Value)
    requires DeclaredSupertype(m.hierarchy, t) == Some(s)
    ensures (exists k: nat :: FailsAt(m, t, v, 0, k)) <==>
            MeetsAll(m, s, v) && AllHold(m, m.constraintsOf(t.definition), v).None?
  {
    var constraints := m.constraintsOf(t.definition);
    FailsIff(m, constraints, v);
    forall i: nat, c: nat ensures Inherits(m, s, i, c) <==> Inherits(m, t, i + 1, c) {
      InheritedFromSupertype(m, t, s, i, c);
    }
    assert MeetsAll(m, s, v) <==> MeetsAllAbove(m, t, v, 0) by {
      if MeetsAll(m, s, v) {
        forall i: nat, c: nat | i > 0 && Inherits(m, t, i, c) ensures Holds(m, m.constraint(c), v) == Some(true) {
          assert Inherits(m, s, i - 1, c);
        }
      }
      if MeetsAllAbove(m, t, v, 0) {
        forall i: nat, c: nat | Inherits(m, s, i, c) ensures Holds(m, m.constraint(c), v) == Some(true) {
          assert Inherits(m, t, i + 1, c);
        }
      }
    }
    if MeetsAll(m, s, v) && AllHold(m, constraints, v).None? {
      var k :| 0 <= k < |constraints| && Holds(m, m.constraint(constraints[k]), v).None?
               && forall j :: 0 <= j < k ==> Holds(m, m.constraint(constraints[j]), v) == Some(true);
      assert FailsAt(m, t, v, 0, k);
    }
  }

  /** The walk down the chain of t gets stuck somewhere. */
  ghost predicate Fails(m: Model, t: ValueType, v: Value) {
    exists n: nat, k: nat :: FailsAt(m, t, v, n, k)
  }

  lemma FailingHigher(m: Model, t: ValueType, s: ValueType, v: Value)
    requires DeclaredSupertype(m.hierarchy, t) == Some(s) && Fails(m, s, v)
    ensures Fails(m, t, v)
  {
    var n: nat, k: nat :| FailsAt(m, s, v, n, k);
    FailsOneHigher(m, t, s, v, n, k);
    assert FailsAt(m, t, v, n + 1, k);
  }

  lemma FailsHereOrHigher(m: Model, t: ValueType, s: ValueType, v: Value)
    requires DeclaredSupertype(m.hierarchy, t) == Some(s) && Fails(m, t, v)
    ensures Fails(m, s, v) || exists k: nat :: FailsAt(m, t, v, 0, k)
  {
    var n: nat, k: nat :| FailsAt(m, t, v, n, k);
    if n > 0 {
      FailsOneHigher(m, t, s, v, n - 1, k);
      assert FailsAt(m, s, v, n - 1, k);
    }
  }

  lemma PrimitivesDoNotFail(m: Model, t: ValueType, v: Value)
    requires !t.AtomicType?
    ensures !Fails(m, t, v)
  {
    forall n: nat, k: nat ensures !FailsAt(m, t, v, n, k) {
      if n > 0 { assert DeclaredSupertype(m.hierarchy, t).None?; }
    }
  }

  /** Validity fails an assertion exactly if the value represents the type and the walk down its chain gets stuck. */
  lemma {:induction false} VerdictFailsIff(m: Model, t: ValueType, v: Value)
    requires Rooted(m.hierarchy, t)
    ensures Verdict(m, t, v).None? <==> IsRepresentation(m.hierarchy, t, v) && Fails(m, t, v)
    decreases Height(m.hierarchy, t)
  {
    if t.AtomicType? {
      var s := GetSupertype(m.hierarchy, t).value;
      VerdictFailsIff(m, s, v);
      ValidIff(m, s, v);
      FailsInOwnList(m, t, s, v);
      if Fails(m, s, v) { FailingHigher(m, t, s, v); }
      if Fails(m, t, v) { FailsHereOrHigher(m, t, s, v); }
    } else {
      PrimitivesDoNotFail(m, t, v);
    }
  }

  /** Converting to another type keeps a value valid: no constraint of the target can be new. */
  lemma {:induction false} ConversionKeepsValidity(m: Model, t: ValueType, u: ValueType, v: Value)
    requires Rooted(m.hierarchy, t) && Rooted(m.hierarchy, u) && IsConvertibleTo(m.hierarchy, t, u)
    requires Verdict(m, t, v) == Some(true)
    ensures Verdict(m, u, v) == Some(true)
    decreases Height(m.hierarchy, t)
  {
    if t != u {
      if t.AtomicType? {
        ConversionKeepsValidity(m, GetSupertype(m.hierarchy, t).value, u, v);
      } else {
        ConversionKeepsRepresentation(m.hierarchy, t, u, v);
      }
    }
  }

  // ---------------------------------------------------------------------------
  // The walk up the chain
  // ---------------------------------------------------------------------------

  /** After a verdict the context is as before, but for the keyword, which is bound no longer. */
  twostate predicate Restored(context: ExecutionContext)
    reads context, context.evaluation
  {
    && context.stack == old(context.stack)
    && context.evaluation.variableValues == old(context.evaluation.variableValues)
    && context.evaluation.valueKeywordValue in {None, old(context.evaluation.valueKeywordValue)}
  }

  /** A failed assertion leaves the constraint on the stack and the value bound to the keyword. */
  twostate predicate Interrupted(context: ExecutionContext, c: nat, v: Value)
    reads context, context.evaluation
  {
    && context.stack == old(context.stack) + [ConstraintNode(c)]
    && context.evaluation.variableValues == old(context.evaluation.variableValues)
    && context.evaluation.valueKeywordValue == Some(v)
  }

  method CheckConstraint(m: Model, c: Constraint, v: Value, evaluation: EvaluationContext) returns (r: Option<bool>)
    requires c.ExpressionConstraint? ==> MentionsOnly(c.expression, {})
    modifies evaluation
    ensures r == Holds(m, c, v)
    ensures evaluation.variableValues == old(evaluation.variableValues)
    ensures r.Some? ==> evaluation.valueKeywordValue in {None, old(evaluation.valueKeywordValue)}
    ensures r.None? ==> evaluation.valueKeywordValue == Some(v)
  {
    if c.ExpressionConstraint? {
      evaluation.SetValueForValueKeyword(v);
      var result := Evaluate(m.library, evaluation.Bindings(), c.expression, Lazy);
      OtherVariablesDoNotMatter(m.library, evaluation.Bindings(), Env(map[], Some(v)), {}, c.expression, Lazy);
      if !result.Val? || !result.v.BoolV? { return None; }
      evaluation.DeleteValueForValueKeyword();
      return Some(result.v.b);
    }
    return Holds(m, c, v);
  }

  /** The constraints of one type, in order. */
  method CheckConstraints(m: Model, constraints: seq<nat>, v: Value, context: ExecutionContext)
    returns (r: Option<bool>, ghost failing: nat)
    requires m.WellScoped()
    modifies context, context.evaluation
    ensures r == AllHold(m, constraints, v)
    ensures r.Some? ==> Restored(context)
    ensures r.None? ==> Interrupted(context, failing, v)
  {
    for i := 0 to |constraints|
      invariant Restored(context)
      invariant AllHold(m, constraints, v) == AllHold(m, constraints[i..], v)
    {
      context.EnterNode(ConstraintNode(constraints[i]));
      r := CheckConstraint(m, m.constraint(constraints[i]), v, context.evaluation);
      if r.None? { return None, constraints[i]; }
      context.ExitNode(ConstraintNode(constraints[i]));
      if r == Some(false) { return r, 0; }
    }
    return Some(true), 0;
  }

  method IsValidValueRepresentation(m: Model, v: Value, t: ValueType, context: ExecutionContext)
    returns (r: Option<bool>, ghost failing: nat)
    requires m.WellScoped() && Rooted(m.hierarchy, t)
    modifies context, context.evaluation
    ensures r == Verdict(m, t, v)
    ensures r.Some? ==> Restored(context)
    ensures r.None? ==> Interrupted(context, failing, v)
    decreases Height(m.hierarchy, t)
  {
    failing := 0;
    if !t.AtomicType? { return Some(IsRepresentation(m.hierarchy, t, v)), 0; }
    var supertype := GetSupertype(m.hierarchy, t);
    r, failing := IsValidValueRepresentation(m, v, supertype.value, context);
    if r != Some(true) { return; }
    r, failing := CheckConstraints(m, m.constraintsOf(t.definition), v, context);
  }
}
