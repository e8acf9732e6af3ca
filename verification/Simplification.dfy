/**
 * The search for constant sub-expressions. Nodes of a syntax tree are addressed by their
 * position, so that comparing two nodes for identity is comparing their positions.
 */
module Simplification {
  import opened Common
  import opened ValueTypes
  import opened Expressions
  import opened Strategies

  /** The operand to step into at each level, counted from the left. */
  type Position = seq<nat>

  function Operands(e: Expression): seq<Expression> {
    match e
    case Unary(_, a) => [a]
    case Binary(_, a, b) => [a, b]
    case Replace(a, b, c) => [a, b, c]
    case _ => []
  }

  predicate IsLiteral(e: Expression) { !e.Unary? && !e.Binary? && !e.Replace? }

  predicate IsFreeVariable(e: Expression) {
    e.ValueKeyword? || e.VariableReference? || e.ConstraintReference? || e.TransformReference?
  }

  function At(e: Expression, p: Position): Option<Expression>
    decreases |p|
  {
    if |p| == 0 then Some(e)
    else if p[0] >= |Operands(e)| then None
    else At(Operands(e)[p[0]], p[1..])
  }

  /** Positions count operands from the left, from 0 on. */
  lemma PositionsOfOperands(op: UnaryOperator, op': BinaryOperator, a: Expression, b: Expression, c: Expression)
    ensures At(a, []) == Some(a)
    ensures At(Unary(op, a), [0]) == Some(a) && At(Unary(op, a), [1]).None?
    ensures At(Binary(op', a, b), [0]) == Some(a) && At(Binary(op', a, b), [1]) == Some(b)
    ensures At(Binary(op', a, b), [2]).None?
    ensures At(Replace(a, b, c), [0]) == Some(a) && At(Replace(a, b, c), [1]) == Some(b)
    ensures At(Replace(a, b, c), [2]) == Some(c) && At(Replace(a, b, c), [3]).None?
  {}

  function Below(i: nat, ps: seq<Position>): (r: seq<Position>)
    ensures |r| == |ps| && forall k :: 0 <= k < |ps| ==> r[k] == [i] + ps[k]
  {
    seq(|ps|, k requires 0 <= k < |ps| => [i] + ps[k])
  }

  /**
   * Positions of the sub-expressions taken to have no free variables. An operator whose operands
   * all collect exactly themselves is collected in their place.
   */
  function Collect(e: Expression): seq<Position>
    decreases e, |Operands(e)| + 1
  {
    if IsLiteral(e) then
      if IsFreeVariable(e) then [] else [[]]
    else if forall a :: a in Operands(e) ==> Collect(a) == [[]] then [[]]
    else CollectFrom(e, 0)
  }

  /** What the operands from number i on collect, from left to right. */
  function CollectFrom(e: Expression, i: nat): seq<Position>
    requires i <= |Operands(e)|
    decreases e, |Operands(e)| - i
  {
    if i == |Operands(e)| then []
    else
      assert Operands(e)[i] in Operands(e);
      Below(i, Collect(Operands(e)[i])) + CollectFrom(e, i + 1)
  }

  lemma InBelow(i: nat, ps: seq<Position>, p: Position)
    ensures p in Below(i, ps) <==> |p| > 0 && p[0] == i && p[1..] in ps
  {
    if |p| > 0 && p[0] == i && p[1..] in ps {
      var k :| 0 <= k < |ps| && ps[k] == p[1..];
      assert Below(i, ps)[k] == p;
    }
  }

  lemma {:induction false} InCollectFrom(e: Expression, i: nat, p: Position)
    requires i <= |Operands(e)|
    ensures p in CollectFrom(e, i) <==>
              |p| > 0 && i <= p[0] < |Operands(e)| && p[1..] in Collect(Operands(e)[p[0]])
    decreases |Operands(e)| - i
  {
    if i < |Operands(e)| {
      InBelow(i, Collect(Operands(e)[i]), p);
      InCollectFrom(e, i + 1, p);
    }
  }

  // ---------------------------------------------------------------------------
  // What is collected
  // ---------------------------------------------------------------------------

  /** No free variable anywhere, inside collection literals included. */
  predicate Closed(e: Expression) {
    if e.CollectionLiteral? then forall v :: v in e.values ==> Closed(v)
    else !IsFreeVariable(e) && forall a :: a in Operands(e) ==> Closed(a)
  }

  /** The search does not look into collection literals; this says there is nothing to see there. */
  predicate CollectionsClosed(e: Expression) {
    if e.CollectionLiteral? then Closed(e)
    else forall a :: a in Operands(e) ==> CollectionsClosed(a)
  }

  ghost predicate MaximalClosed(e: Expression, p: Position) {
    && At(e, p).Some? && Closed(At(e, p).value)
    && forall k :: 0 <= k < |p| ==> At(e, p[..k]).Some? && !Closed(At(e, p[..k]).value)
  }

  /** Positions read from left to right. */
  predicate Before(p: Position, q: Position) {
    |p| > 0 && |q| > 0 && (p[0] < q[0] || (p[0] == q[0] && Before(p[1..], q[1..])))
  }

  lemma {:induction false} CollectsWholeIffClosed(e: Expression)
    requires CollectionsClosed(e)
    ensures Collect(e) == [[]] <==> Closed(e)
    decreases e
  {
    forall a | a in Operands(e) ensures Collect(a) == [[]] <==> Closed(a) {
      CollectsWholeIffClosed(a);
    }
    InCollectFrom(e, 0, []);
    var whole: seq<Position> := [[]];
    assert whole[0] in whole;
  }

  /** For an expression that is not closed as a whole, the collected positions lie under its operands. */
  lemma CollectsUnderOperands(e: Expression, p: Position)
    requires CollectionsClosed(e) && !Closed(e)
    ensures p in Collect(e) <==> |p| > 0 && p[0] < |Operands(e)| && p[1..] in Collect(Operands(e)[p[0]])
  {
    CollectsWholeIffClosed(e);
    InCollectFrom(e, 0, p);
  }

  lemma MaximalUnderOperands(e: Expression, p: Position)
    requires !Closed(e) && |p| > 0 && p[0] < |Operands(e)|
    ensures MaximalClosed(e, p) <==> MaximalClosed(Operands(e)[p[0]], p[1..])
  {
    var a, q := Operands(e)[p[0]], p[1..];
    forall k | 0 <= k < |q| ensures At(e, p[..k + 1]) == At(a, q[..k]) {
      assert p[..k + 1][1..] == q[..k];
    }
    if MaximalClosed(e, p) {
      forall k | 0 <= k < |q| ensures At(a, q[..k]).Some? && !Closed(At(a, q[..k]).value) {
        assert At(e, p[..k + 1]).Some?;
      }
    }
    if MaximalClosed(a, q) {
      forall k | 0 <= k < |p| ensures At(e, p[..k]).Some? && !Closed(At(e, p[..k]).value) {
        if k > 0 { assert At(e, p[..k - 1 + 1]) == At(a, q[..k - 1]); }
      }
    }
  }

  /** With closed collection literals, exactly the maximal closed sub-expressions are collected. */
  lemma {:induction false} CollectsMaximalClosed(e: Expression, p: Position)
    requires CollectionsClosed(e)
    ensures p in Collect(e) <==> MaximalClosed(e, p)
    decreases e
  {
    CollectsWholeIffClosed(e);
    if Closed(e) {
      if |p| > 0 { assert p[..0] == []; }
    } else {
      CollectsUnderOperands(e, p);
      if |p| > 0 && p[0] < |Operands(e)| {
        MaximalUnderOperands(e, p);
        assert Operands(e)[p[0]] in Operands(e);
        CollectsMaximalClosed(Operands(e)[p[0]], p[1..]);
      }
    }
  }

  predicate LeftToRight(ps: seq<Position>) {
    forall i, j :: 0 <= i < j < |ps| ==> Before(ps[i], ps[j])
  }

  lemma LeftToRightBelow(i: nat, ps: seq<Position>)
    requires LeftToRight(ps)
    ensures LeftToRight(Below(i, ps))
  {
    forall j, k | 0 <= j < k < |ps| ensures Before(Below(i, ps)[j], Below(i, ps)[k]) {
      assert Below(i, ps)[j][1..] == ps[j] && Below(i, ps)[k][1..] == ps[k];
    }
  }

  lemma {:induction false} CollectFromLeftToRight(e: Expression, i: nat)
    requires i <= |Operands(e)|
    ensures LeftToRight(CollectFrom(e, i))
    decreases e, |Operands(e)| - i
  {
    if i < |Operands(e)| {
      var here, rest := Below(i, Collect(Operands(e)[i])), CollectFrom(e, i + 1);
      assert Operands(e)[i] in Operands(e);
      CollectsLeftToRight(Operands(e)[i]);
      LeftToRightBelow(i, Collect(Operands(e)[i]));
      CollectFromLeftToRight(e, i + 1);
      forall j, k | 0 <= j < |here| && 0 <= k < |rest| ensures Before(here[j], rest[k]) {
        InCollectFrom(e, i + 1, rest[k]);
      }
    }
  }

  /** They come in source order, and so without repetition. */
  lemma {:induction false} CollectsLeftToRight(e: Expression)
    ensures LeftToRight(Collect(e))
    decreases e, |Operands(e)| + 1
  {
    CollectFromLeftToRight(e, 0);
  }

  ghost predicate AllCollectedClosed(e: Expression) {
    forall p :: p in Collect(e) ==> At(e, p).Some? && Closed(At(e, p).value)
  }

  /** An open collection literal is inside one of the collected sub-expressions. */
  lemma {:induction false} OpenCollectionIsCollected(e: Expression) returns (p: Position)
    requires !CollectionsClosed(e)
    ensures p in Collect(e) && At(e, p).Some? && !Closed(At(e, p).value)
    decreases e
  {
    if e.CollectionLiteral? {
      p := [];
    } else {
      var i :| 0 <= i < |Operands(e)| && !CollectionsClosed(Operands(e)[i]);
      var q := OpenCollectionIsCollected(Operands(e)[i]);
      if Collect(e) == [[]] {
        p := [];
        NotClosedAbove(Operands(e)[i], q);
      } else {
        p := [i] + q;
        InCollectFrom(e, 0, p);
        assert p[1..] == q;
      }
    }
  }

  lemma {:induction false} NotClosedAbove(e: Expression, p: Position)
    requires At(e, p).Some? && !Closed(At(e, p).value)
    ensures !Closed(e)
    decreases |p|
  {
    if |p| > 0 { NotClosedAbove(Operands(e)[p[0]], p[1..]); }
  }

  /** The search reports only closed sub-expressions exactly when no collection literal hides a variable. */
  lemma CollectedAreClosedIffCollectionsAre(e: Expression)
    ensures AllCollectedClosed(e) <==> CollectionsClosed(e)
  {
    if CollectionsClosed(e) {
      forall p | p in Collect(e) ensures MaximalClosed(e, p) { CollectsMaximalClosed(e, p); }
    } else {
      var p := OpenCollectionIsCollected(e);
    }
  }

  // ---------------------------------------------------------------------------
  // Replacing what is reported
  // ---------------------------------------------------------------------------

  function Put(e: Expression, p: Position, x: Expression): (r: Expression)
    requires At(e, p).Some?
    ensures At(r, p) == Some(x)
    decreases |p|
  {
    if |p| == 0 then x
    else
      match e
      case Unary(op, a) => Unary(op, Put(a, p[1..], x))
      case Binary(op, a, b) => if p[0] == 0 then Binary(op, Put(a, p[1..], x), b) else Binary(op, a, Put(b, p[1..], x))
      case Replace(a, b, c) =>
        if p[0] == 0 then Replace(Put(a, p[1..], x), b, c)
        else if p[0] == 1 then Replace(a, Put(b, p[1..], x), c)
        else Replace(a, b, Put(c, p[1..], x))
  }

  /** Values that can be written down as a literal without references. */
  predicate Writable(v: Value) {
    match v
    case ConstraintV(_) => false
    case TransformV(_) => false
    case CollectionV(elements) => forall e :: e in elements ==> Writable(e)
    case _ => true
  }

  function Written(v: Value): Expression
    requires Writable(v)
    decreases v, 1
  {
    match v
    case BoolV(b) => BooleanLiteral(b)
    case NumV(n) => NumericLiteral(n)
    case TextV(s) => TextLiteral(s)
    case RegexV(p) => RegexLiteral(p)
    case CellRangeV(r) => CellRangeLiteral(r)
    case AssignmentV(a) => AssignmentLiteral(a)
    case CollectionV(elements) => CollectionLiteral(WrittenAll(elements))
  }

  function WrittenAll(vs: seq<Value>): seq<Expression>
    requires forall v :: v in vs ==> Writable(v)
    decreases vs, 0
  {
    if |vs| == 0 then [] else [Written(vs[0])] + WrittenAll(vs[1..])
  }

  lemma {:induction false} WrittenEvaluatesBack(lib: Library, env: Env, v: Value, s: Strategy)
    requires Writable(v)
    ensures Evaluate(lib, env, Written(v), s) == Val(v)
    decreases v, 1
  {
    if v.CollectionV? { WrittenAllEvaluatesBack(lib, env, v.elements, s); }
  }

  lemma {:induction false} WrittenAllEvaluatesBack(lib: Library, env: Env, vs: seq<Value>, s: Strategy)
    requires forall v :: v in vs ==> Writable(v)
    ensures EvaluateAll(lib, env, WrittenAll(vs), s) == Val(CollectionV(vs))
    decreases vs, 0
  {
    if |vs| > 0 {
      WrittenEvaluatesBack(lib, env, vs[0], s);
      WrittenAllEvaluatesBack(lib, env, vs[1..], s);
      assert WrittenAll(vs)[1..] == WrittenAll(vs[1..]);
      assert [vs[0]] + vs[1..] == vs;
    }
  }

  ghost predicate Constant(lib: Library, e: Expression, s: Strategy, o: Outcome) {
    && (forall env :: Evaluate(lib, env, e, s) == o)
    && (o.Val? ==> Writable(o.v))
  }

  /** Without free variables, evaluation does not depend on the environment. */
  lemma {:induction false} ClosedIgnoresEnvironment(lib: Library, env: Env, other: Env, e: Expression, s: Strategy)
    requires Closed(e)
    ensures Evaluate(lib, env, e, s) == Evaluate(lib, other, e, s)
    decreases e, 1
  {
    match e
    case CollectionLiteral(values) =>
      ClosedElementsIgnoreEnvironment(lib, env, other, values, s);
    case Unary(op, a) =>
      assert Operands(e)[0] == a;
      ClosedIgnoresEnvironment(lib, env, other, a, s);
    case Binary(op, a, b) =>
      assert Operands(e)[0] == a && Operands(e)[1] == b;
      ClosedIgnoresEnvironment(lib, env, other, a, s);
      ClosedIgnoresEnvironment(lib, env, other, b, s);
    case Replace(a, b, c) =>
      assert Operands(e)[0] == a && Operands(e)[1] == b && Operands(e)[2] == c;
      ClosedIgnoresEnvironment(lib, env, other, a, s);
      ClosedIgnoresEnvironment(lib, env, other, b, s);
      ClosedIgnoresEnvironment(lib, env, other, c, s);
    case _ =>
  }

  lemma {:induction false} ClosedElementsIgnoreEnvironment(lib: Library, env: Env, other: Env, es: seq<Expression>,
                                                           s: Strategy)
    requires forall e :: e in es ==> Closed(e)
    ensures EvaluateAll(lib, env, es, s) == EvaluateAll(lib, other, es, s)
    decreases es, 0
  {
    if |es| > 0 {
      ClosedIgnoresEnvironment(lib, env, other, es[0], s);
      ClosedElementsIgnoreEnvironment(lib, env, other, es[1..], s);
    }
  }

  /** Operators only pass values on or compute texts, numbers and booleans. */
  lemma {:induction false} ClosedIsWritable(lib: Library, env: Env, e: Expression, s: Strategy)
    requires Closed(e) && Evaluate(lib, env, e, s).Val?
    ensures Writable(Evaluate(lib, env, e, s).v)
    decreases e, 1
  {
    if e.CollectionLiteral? {
      ClosedElementsAreWritable(lib, env, e.values, s);
    } else if e.Unary? {
      assert Operands(e)[0] == e.operand;
      ClosedIsWritable(lib, env, e.operand, s);
    }
  }

  lemma {:induction false} ClosedElementsAreWritable(lib: Library, env: Env, es: seq<Expression>, s: Strategy)
    requires (forall e :: e in es ==> Closed(e)) && EvaluateAll(lib, env, es, s).Val?
    ensures Writable(EvaluateAll(lib, env, es, s).v)
    decreases es, 0
  {
    if |es| > 0 {
      ClosedIsWritable(lib, env, es[0], s);
      ClosedElementsAreWritable(lib, env, es[1..], s);
    }
  }

  lemma ClosedIsConstant(lib: Library, env: Env, e: Expression, s: Strategy)
    requires Closed(e)
    ensures Constant(lib, e, s, Evaluate(lib, env, e, s))
  {
    forall other ensures Evaluate(lib, other, e, s) == Evaluate(lib, env, e, s) {
      ClosedIgnoresEnvironment(lib, other, env, e, s);
    }
    if Evaluate(lib, env, e, s).Val? { ClosedIsWritable(lib, env, e, s); }
  }

  /** Evaluation is compositional: only the outcome of an operand matters. */
  lemma {:induction false} PutKeepsOutcome(lib: Library, env: Env, e: Expression, p: Position, x: Expression,
                                           s: Strategy)
    requires At(e, p).Some? && Evaluate(lib, env, x, s) == Evaluate(lib, env, At(e, p).value, s)
    ensures Evaluate(lib, env, Put(e, p, x), s) == Evaluate(lib, env, e, s)
    decreases |p|
  {
    if |p| > 0 { PutKeepsOutcome(lib, env, Operands(e)[p[0]], p[1..], x, s); }
  }

  /** A reported sub-expression may be replaced by its reported value, in every environment and strategy. */
  lemma ReplacingReportedKeepsMeaning(lib: Library, validation: Env, e: Expression, p: Position, v: Value, env: Env,
                                      s: Strategy)
    requires CollectionsClosed(e) && p in Collect(e)
    requires At(e, p).Some? ==> Evaluate(lib, validation, At(e, p).value, Exhaustive) == Val(v)
    ensures At(e, p).Some? && Writable(v)
    ensures Evaluate(lib, env, Put(e, p, Written(v)), s) == Evaluate(lib, env, e, s)
  {
    CollectsMaximalClosed(e, p);
    var sub := At(e, p).value;
    ClosedIsConstant(lib, validation, sub, Exhaustive);
    LazyKeepsValues(lib, env, sub);
    assert Evaluate(lib, env, sub, s) == Val(v);
    WrittenEvaluatesBack(lib, env, v, s);
    PutKeepsOutcome(lib, env, e, p, Written(v), s);
  }

  // ---------------------------------------------------------------------------
  // The check as a whole
  // ---------------------------------------------------------------------------

  predicate IsNegativeNumber(e: Expression) {
    e.Unary? && e.unaryOperator.Minus? && IsLiteral(e.operand) && !IsFreeVariable(e.operand)
  }

  predicate Simplifiable(e: Expression) { !IsLiteral(e) && !IsNegativeNumber(e) }

  /** Everything but literals, references and negated literals is worth simplifying. */
  lemma SimplifiableIff(e: Expression)
    ensures Simplifiable(e) <==>
              || e.Binary? || e.Replace?
              || (e.Unary? && !(e.unaryOperator == Minus
                                && (e.operand.TextLiteral? || e.operand.BooleanLiteral? || e.operand.NumericLiteral?
                                    || e.operand.CellRangeLiteral? || e.operand.RegexLiteral?
                                    || e.operand.AssignmentLiteral? || e.operand.CollectionLiteral?)))
  {}

  lemma {:induction false} CollectedExist(e: Expression, p: Position)
    requires p in Collect(e)
    ensures At(e, p).Some?
    decreases e
  {
    if |p| > 0 {
      InCollectFrom(e, 0, p);
      CollectedExist(Operands(e)[p[0]], p[1..]);
    }
  }

  datatype Report = Report(at: Position, value: Value)

  /** Whether evaluating the sub-expression for a report succeeds, if it is evaluated at all. */
  predicate Reportable(lib: Library, env: Env, e: Expression, p: Position)
    requires At(e, p).Some?
  {
    Simplifiable(At(e, p).value) ==> Evaluate(lib, env, At(e, p).value, Exhaustive).Val?
  }

  predicate AllReportable(lib: Library, env: Env, e: Expression, ps: seq<Position>)
    requires forall p :: p in ps ==> At(e, p).Some?
  {
    forall p :: p in ps ==> Reportable(lib, env, e, p)
  }

  /** The reports at these positions, in order, up to the first sub-expression without a value. */
  function ReportsAt(lib: Library, env: Env, e: Expression, ps: seq<Position>): seq<Report>
    requires forall p :: p in ps ==> At(e, p).Some?
  {
    if |ps| == 0 then []
    else
      var p := ps[|ps| - 1];
      var earlier := ReportsAt(lib, env, e, ps[..|ps| - 1]);
      if !AllReportable(lib, env, e, ps) || !Simplifiable(At(e, p).value) then earlier
      else earlier + [Report(p, Evaluate(lib, env, At(e, p).value, Exhaustive).v)]
  }

  lemma {:induction false} ReportsStop(lib: Library, env: Env, e: Expression, ps: seq<Position>, k: nat)
    requires k <= |ps| && forall p :: p in ps ==> At(e, p).Some?
    requires !AllReportable(lib, env, e, ps[..k])
    ensures ReportsAt(lib, env, e, ps) == ReportsAt(lib, env, e, ps[..k]) && !AllReportable(lib, env, e, ps)
    decreases |ps|
  {
    if k < |ps| {
      assert ps[..|ps| - 1][..k] == ps[..k];
      ReportsStop(lib, env, e, ps[..|ps| - 1], k);
    } else {
      assert ps[..k] == ps;
    }
  }

  /** One step of the check: a report more, the end of the check, or nothing. */
  lemma ReportOneMore(lib: Library, env: Env, e: Expression, ps: seq<Position>, i: nat)
    requires i < |ps| && (forall p :: p in ps ==> At(e, p).Some?) && AllReportable(lib, env, e, ps[..i])
    ensures AllReportable(lib, env, e, ps[..i + 1]) <==> Reportable(lib, env, e, ps[i])
    ensures ReportsAt(lib, env, e, ps[..i + 1]) == ReportsAt(lib, env, e, ps[..i])
              + (if Simplifiable(At(e, ps[i]).value) && Reportable(lib, env, e, ps[i])
                 then [Report(ps[i], Evaluate(lib, env, At(e, ps[i]).value, Exhaustive).v)] else [])
    ensures !Reportable(lib, env, e, ps[i]) ==>
              ReportsAt(lib, env, e, ps) == ReportsAt(lib, env, e, ps[..i]) && !AllReportable(lib, env, e, ps)
  {
    TakeOneMore(ps, i);
    assert ps[..i + 1][..i] == ps[..i];
    assert ps[i] in ps[..i + 1];
    if !Reportable(lib, env, e, ps[i]) { ReportsStop(lib, env, e, ps, i + 1); }
  }

  /** Not completed is the failed assertion that a value exists, or an error thrown by the evaluation. */
  method CheckExpressionSimplification(lib: Library, env: Env, e: Expression)
    returns (reports: seq<Report>, completed: bool)
    ensures forall p :: p in Collect(e) ==> At(e, p).Some?
    ensures reports == ReportsAt(lib, env, e, Collect(e))
    ensures completed <==> AllReportable(lib, env, e, Collect(e))
  {
    var positions := Collect(e);
    forall p | p in positions ensures At(e, p).Some? { CollectedExist(e, p); }
    reports := [];
    for i := 0 to |positions|
      invariant reports == ReportsAt(lib, env, e, positions[..i]) && AllReportable(lib, env, e, positions[..i])
    {
      var p := positions[i];
      ReportOneMore(lib, env, e, positions, i);
      if Simplifiable(At(e, p).value) {
        var evaluated := Evaluate(lib, env, At(e, p).value, Exhaustive);
        if !evaluated.Val? { return reports, false; }
        reports := reports + [Report(p, evaluated.v)];
      }
    }
    assert positions[..|positions|] == positions;
    return reports, true;
  }

  /** The report names a collected sub-expression worth simplifying, with its exhaustive value. */
  predicate IsReport(lib: Library, validation: Env, e: Expression, r: Report) {
    && r.at in Collect(e) && At(e, r.at).Some? && Simplifiable(At(e, r.at).value)
    && Evaluate(lib, validation, At(e, r.at).value, Exhaustive) == Val(r.value)
  }

  /** Reports stand in source order. */
  ghost predicate InSourceOrder(reports: seq<Report>) {
    forall i, j :: 0 <= i < j < |reports| ==> Before(reports[i].at, reports[j].at)
  }

  ghost predicate Reported(lib: Library, validation: Env, e: Expression, reports: seq<Report>) {
    && InSourceOrder(reports)
    && (forall r :: r in reports ==> IsReport(lib, validation, e, r))
  }

  lemma AppendReported(lib: Library, validation: Env, e: Expression, reports: seq<Report>, r: Report)
    requires Reported(lib, validation, e, reports) && IsReport(lib, validation, e, r)
    requires forall q :: q in reports ==> Before(q.at, r.at)
    ensures Reported(lib, validation, e, reports + [r])
  {}

  lemma EarlierReportsAreBefore(e: Expression, ps: seq<Position>, reports: seq<Report>, k: nat)
    requires ps == Collect(e) && k < |ps| && forall r :: r in reports ==> r.at in ps[..k]
    ensures forall r :: r in reports ==> Before(r.at, ps[k])
  {
    CollectsLeftToRight(e);
    forall r | r in reports ensures Before(r.at, ps[k]) {
      var j :| 0 <= j < k && ps[..k][j] == r.at;
    }
  }

  /** The reports are about these positions. */
  predicate About(reports: seq<Report>, ps: seq<Position>) { forall r :: r in reports ==> r.at in ps }

  /** The report made at the next position comes after the earlier ones. */
  lemma FaithfulOneMore(lib: Library, validation: Env, e: Expression, ps: seq<Position>, n: nat, earlier: seq<Report>)
    requires ps == Collect(e) && n < |ps| && At(e, ps[n]).Some? && Simplifiable(At(e, ps[n]).value)
    requires Evaluate(lib, validation, At(e, ps[n]).value, Exhaustive).Val?
    requires Reported(lib, validation, e, earlier) && About(earlier, ps[..n])
    ensures var r := Report(ps[n], Evaluate(lib, validation, At(e, ps[n]).value, Exhaustive).v);
            Reported(lib, validation, e, earlier + [r]) && About(earlier + [r], ps[..n] + [ps[n]])
  {
    var r := Report(ps[n], Evaluate(lib, validation, At(e, ps[n]).value, Exhaustive).v);
    EarlierReportsAreBefore(e, ps, earlier, n);
    assert IsReport(lib, validation, e, r);
    AppendReported(lib, validation, e, earlier, r);
  }

  lemma FaithfulStep(lib: Library, validation: Env, e: Expression, ps: seq<Position>, n: nat)
    requires ps == Collect(e) && n < |ps| && forall p :: p in ps ==> At(e, p).Some?
    requires Reported(lib, validation, e, ReportsAt(lib, validation, e, ps[..n]))
    requires About(ReportsAt(lib, validation, e, ps[..n]), ps[..n])
    ensures Reported(lib, validation, e, ReportsAt(lib, validation, e, ps[..n + 1]))
    ensures About(ReportsAt(lib, validation, e, ps[..n + 1]), ps[..n + 1])
  {
    TakeOneMore(ps, n);
    if AllReportable(lib, validation, e, ps[..n]) {
      ReportOneMore(lib, validation, e, ps, n);
      if Simplifiable(At(e, ps[n]).value) && Reportable(lib, validation, e, ps[n]) {
        FaithfulOneMore(lib, validation, e, ps, n, ReportsAt(lib, validation, e, ps[..n]));
      }
    } else {
      assert ps[..n + 1][..n] == ps[..n];
      ReportsStop(lib, validation, e, ps[..n + 1], n);
    }
  }

  /** Each report names a collected expression worth simplifying and its value, in source order. */
  lemma {:induction false} ReportsAreFaithful(lib: Library, validation: Env, e: Expression, n: nat)
    requires n <= |Collect(e)| && forall p :: p in Collect(e) ==> At(e, p).Some?
    ensures Reported(lib, validation, e, ReportsAt(lib, validation, e, Collect(e)[..n]))
    ensures About(ReportsAt(lib, validation, e, Collect(e)[..n]), Collect(e)[..n])
    decreases n
  {
    if n > 0 {
      ReportsAreFaithful(lib, validation, e, n - 1);
      FaithfulStep(lib, validation, e, Collect(e), n - 1);
    }
  }

  /** Nothing that could be simplified goes unreported, as long as the check proceeds. */
  lemma {:induction false} ReportsAreComplete(lib: Library, validation: Env, e: Expression, ps: seq<Position>, k: nat)
    requires forall q :: q in ps ==> At(e, q).Some?
    requires k < |ps| && AllReportable(lib, validation, e, ps[..k + 1]) && Simplifiable(At(e, ps[k]).value)
    ensures exists r :: r in ReportsAt(lib, validation, e, ps) && r.at == ps[k]
    decreases |ps|
  {
    var n := |ps| - 1;
    var reports := ReportsAt(lib, validation, e, ps);
    if k == n {
      assert ps[..k + 1] == ps;
      assert reports[|reports| - 1].at == ps[k];
    } else {
      assert ps[..n][..k + 1] == ps[..k + 1];
      ReportsAreComplete(lib, validation, e, ps[..n], k);
      var earlier := ReportsAt(lib, validation, e, ps[..n]);
      var r :| r in earlier && r.at == ps[k];
      assert earlier <= reports;
    }
  }

  function PutAll(e: Expression, reports: seq<Report>): Expression
    requires forall r :: r in reports ==> Writable(r.value)
  {
    if |reports| == 0 then e
    else
      var r := reports[|reports| - 1];
      var rest := PutAll(e, reports[..|reports| - 1]);
      if At(rest, r.at).Some? then Put(rest, r.at, Written(r.value)) else rest
  }

  predicate Diverge(p: Position, q: Position) {
    |p| > 0 && |q| > 0 && (p[0] != q[0] || Diverge(p[1..], q[1..]))
  }

  lemma {:induction false} BeforeDiverges(p: Position, q: Position)
    requires Before(p, q)
    ensures Diverge(p, q)
    decreases |p|
  {
    if p[0] == q[0] { BeforeDiverges(p[1..], q[1..]); }
  }

  lemma {:induction false} PutElsewhere(e: Expression, p: Position, x: Expression, q: Position)
    requires At(e, p).Some? && Diverge(p, q)
    ensures At(Put(e, p, x), q) == At(e, q)
    decreases |p|
  {
    if p[0] == q[0] && q[0] < |Operands(e)| {
      PutElsewhere(Operands(e)[p[0]], p[1..], x, q[1..]);
    }
  }

  /** Replacing one more sub-expression, apart from the ones replaced before, keeps the meaning. */
  lemma PutOneMore(lib: Library, validation: Env, e: Expression, changed: Expression, r: Report, env: Env, s: Strategy)
    requires CollectionsClosed(e) && IsReport(lib, validation, e, r)
    requires At(changed, r.at) == At(e, r.at) && Evaluate(lib, env, changed, s) == Evaluate(lib, env, e, s)
    ensures Writable(r.value)
    ensures Evaluate(lib, env, Put(changed, r.at, Written(r.value)), s) == Evaluate(lib, env, e, s)
  {
    ReportedValueIsOutcome(lib, validation, e, r, env, s);
    PutKeepsOutcome(lib, env, changed, r.at, Written(r.value), s);
  }

  /** All reports together lie apart from the position. */
  ghost predicate Apart(reports: seq<Report>, q: Position) { forall r :: r in reports ==> Diverge(r.at, q) }

  lemma {:induction false} PutAllElsewhere(e: Expression, reports: seq<Report>, q: Position)
    requires Apart(reports, q) && forall r :: r in reports ==> Writable(r.value)
    ensures At(PutAll(e, reports), q) == At(e, q)
    decreases |reports|
  {
    if |reports| > 0 {
      var r, rest := reports[|reports| - 1], reports[..|reports| - 1];
      SplitLast(reports);
      PutAllElsewhere(e, rest, q);
      if At(PutAll(e, rest), r.at).Some? { PutElsewhere(PutAll(e, rest), r.at, Written(r.value), q); }
    }
  }

  /** The earlier replacements leave the position of the last report alone. */
  lemma LastIsUntouched(e: Expression, reports: seq<Report>)
    requires |reports| > 0 && InSourceOrder(reports)
    requires forall r :: r in reports[..|reports| - 1] ==> Writable(r.value)
    ensures var r := reports[|reports| - 1]; At(PutAll(e, reports[..|reports| - 1]), r.at) == At(e, r.at)
  {
    var r, rest := reports[|reports| - 1], reports[..|reports| - 1];
    forall other | other in rest ensures Diverge(other.at, r.at) {
      var i :| 0 <= i < |rest| && rest[i] == other;
      assert reports[i] == other;
      BeforeDiverges(other.at, r.at);
    }
    PutAllElsewhere(e, rest, r.at);
  }

  lemma {:induction false} PutAllKeepsMeaning(lib: Library, validation: Env, e: Expression, reports: seq<Report>,
                                              env: Env, s: Strategy)
    requires CollectionsClosed(e) && Reported(lib, validation, e, reports)
    ensures forall r :: r in reports ==> Writable(r.value)
    ensures Evaluate(lib, env, PutAll(e, reports), s) == Evaluate(lib, env, e, s)
    decreases |reports|
  {
    if |reports| > 0 {
      var r, rest := reports[|reports| - 1], reports[..|reports| - 1];
      SplitLast(reports);
      PutAllKeepsMeaning(lib, validation, e, rest, env, s);
      LastIsUntouched(e, reports);
      assert IsReport(lib, validation, e, r);
      PutOneMore(lib, validation, e, PutAll(e, rest), r, env, s);
    }
  }

  lemma ReportedValueIsOutcome(lib: Library, validation: Env, e: Expression, r: Report, env: Env, s: Strategy)
    requires CollectionsClosed(e) && IsReport(lib, validation, e, r)
    ensures Writable(r.value)
    ensures Evaluate(lib, env, Written(r.value), s) == Evaluate(lib, env, At(e, r.at).value, s)
  {
    CollectsMaximalClosed(e, r.at);
    ClosedIsConstant(lib, validation, At(e, r.at).value, Exhaustive);
    LazyKeepsValues(lib, env, At(e, r.at).value);
    WrittenEvaluatesBack(lib, env, r.value, s);
  }

  /** The check: whatever it reports may be simplified, all of it at once. */
  lemma SimplificationIsTruthful(lib: Library, validation: Env, e: Expression, env: Env, s: Strategy)
    requires CollectionsClosed(e)
    ensures forall p :: p in Collect(e) ==> At(e, p).Some?
    ensures var reports := ReportsAt(lib, validation, e, Collect(e));
            && (forall r :: r in reports ==> Writable(r.value))
            && Evaluate(lib, env, PutAll(e, reports), s) == Evaluate(lib, env, e, s)
  {
    forall p | p in Collect(e) ensures At(e, p).Some? { CollectedExist(e, p); }
    assert Collect(e)[..|Collect(e)|] == Collect(e);
    ReportsAreFaithful(lib, validation, e, |Collect(e)|);
    PutAllKeepsMeaning(lib, validation, e, ReportsAt(lib, validation, e, Collect(e)), env, s);
  }

  /** An open collection literal is collected as it stands, although its value depends on a variable. */
  lemma OpenLiteralIsCollected(lib: Library, x: string)
    ensures var e := CollectionLiteral([VariableReference(x)]);
            && Collect(e) == [[]] && At(e, []) == Some(e) && !Closed(e)
            && (forall v: Value :: Evaluate(lib, Env(map[x := v], None), e, Exhaustive) == Val(CollectionV([v])))
            && Evaluate(lib, Env(map[], None), e, Exhaustive) == Undef
  {
    var e := CollectionLiteral([VariableReference(x)]);
    assert e.values[0] == VariableReference(x) && !Closed(VariableReference(x));
    forall env: Env
      ensures Evaluate(lib, env, e, Exhaustive)
           == Prepend(Evaluate(lib, env, VariableReference(x), Exhaustive), Val(CollectionV([])))
    {
      assert EvaluateAll(lib, env, e.values[1..], Exhaustive) == Val(CollectionV([]));
    }
  }

  /** What the check reports if it completes. */
  ghost predicate ReportedFor(lib: Library, env: Env, e: Expression, reports: seq<Report>) {
    && (forall p :: p in Collect(e) ==> At(e, p).Some?)
    && AllReportable(lib, env, e, Collect(e)) && ReportsAt(lib, env, e, Collect(e)) == reports
  }

  const SUM := Binary(Add, NumericLiteral(1.0), NumericLiteral(2.0))

  lemma LiteralsAreCollected(n: real, x: string)
    ensures Collect(NumericLiteral(n)) == [[]] && Collect(VariableReference(x)) == []
  {}

  lemma SumIsCollected()
    ensures Collect(SUM) == [[]]
  {
    LiteralsAreCollected(1.0, "");
    LiteralsAreCollected(2.0, "");
    assert Operands(SUM) == [NumericLiteral(1.0), NumericLiteral(2.0)];
  }

  lemma SumIsThree(lib: Library, env: Env)
    ensures Evaluate(lib, env, SUM, Exhaustive) == Val(NumV(3.0))
  {}

  /** `1 + 2` is reported as 3. */
  lemma SumIsReported(lib: Library, env: Env)
    ensures ReportedFor(lib, env, SUM, [Report([], NumV(3.0))])
  {
    SumIsCollected();
    SumIsThree(lib, env);
    var whole: seq<Position> := [[]];
    assert whole[0] == [] && whole[..0] == [] && whole[0] in whole;
  }

  /** `-n` and `x` are not reported. */
  lemma NumbersAndVariablesAreNotReported(lib: Library, env: Env, n: real, x: string)
    ensures ReportedFor(lib, env, Unary(Minus, NumericLiteral(n)), [])
    ensures ReportedFor(lib, env, VariableReference(x), [])
  {
    var e := Unary(Minus, NumericLiteral(n));
    var whole: seq<Position> := [[]];
    assert Collect(NumericLiteral(n)) == whole && Operands(e) == [NumericLiteral(n)];
    assert Collect(e) == whole && whole[0] == [] && whole[..0] == [];
    assert Collect(VariableReference(x)) == [];
  }

  lemma RightCollectsNothing(x: string)
    ensures CollectFrom(Binary(Add, SUM, VariableReference(x)), 1) == []
  {
    var e := Binary(Add, SUM, VariableReference(x));
    LiteralsAreCollected(0.0, x);
    assert Operands(e)[1] == VariableReference(x);
    assert CollectFrom(e, 1) == Below(1, []) + CollectFrom(e, 2);
  }

  lemma LeftIsCollected(x: string)
    ensures Collect(Binary(Add, SUM, VariableReference(x))) == [[0]]
  {
    var e := Binary(Add, SUM, VariableReference(x));
    var p: Position := [0];
    SumIsCollected();
    LiteralsAreCollected(0.0, x);
    RightCollectsNothing(x);
    assert Operands(e)[0] == SUM && Operands(e)[1] == VariableReference(x) && Operands(e)[1] in Operands(e);
    assert Below(0, Collect(SUM)) == [p] by { assert Below(0, Collect(SUM))[0] == p; }
  }

  /** Of `(1 + 2) + x` the left operand is reported. */
  lemma LeftIsReported(lib: Library, env: Env, x: string)
    ensures ReportedFor(lib, env, Binary(Add, SUM, VariableReference(x)), [Report([0], NumV(3.0))])
  {
    var e := Binary(Add, SUM, VariableReference(x));
    LeftIsCollected(x);
    SumIsThree(lib, env);
    var left: seq<Position> := [[0]];
    assert left[0] == [0] && left[..0] == [] && left[0] in left && At(e, [0]) == Some(SUM);
  }
}
