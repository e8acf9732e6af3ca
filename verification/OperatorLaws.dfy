/** What the operators mean: laws that relate their results to each other. */
module OperatorLaws {
  import opened Common
  import opened ValueTypes
  import opened Expressions

  /** What type soundness guarantees of a boolean operand. */
  predicate BooleanOutcome(o: Outcome) { o.Val? ==> o.v.BoolV? }

  /** The operator that a boolean one turns into under negation. */
  function Dual(op: BinaryOperator): BinaryOperator
    requires op.And? || op.Or?
  {
    if op.And? then Or else And
  }

  lemma NegationSwapsOutcomes(lib: Library, op: BinaryOperator, s: Strategy, l: Outcome, r: Outcome)
    requires (op.And? || op.Or?) && BooleanOutcome(l) && BooleanOutcome(r)
    ensures UnaryOutcome(lib, Not, BinaryOutcome(lib, op, s, l, r))
         == BinaryOutcome(lib, Dual(op), s, UnaryOutcome(lib, Not, l), UnaryOutcome(lib, Not, r))
  {}

  /**
   * De Morgan's laws hold for outcomes, not only for values: the two sides are undefined or throw
   * together, although each side skips its right operand by a rule of its own.
   */
  lemma NegationSwapsAndWithOr(lib: Library, env: Env, op: BinaryOperator, a: Expression, b: Expression, s: Strategy)
    requires op.And? || op.Or?
    requires BooleanOutcome(Evaluate(lib, env, a, s)) && BooleanOutcome(Evaluate(lib, env, b, s))
    ensures Evaluate(lib, env, Unary(Not, Binary(op, a, b)), s)
         == Evaluate(lib, env, Binary(Dual(op), Unary(Not, a), Unary(Not, b)), s)
  {
    NegationSwapsOutcomes(lib, op, s, Evaluate(lib, env, a, s), Evaluate(lib, env, b, s));
    assert Evaluate(lib, env, Binary(op, a, b), s)
        == BinaryOutcome(lib, op, s, Evaluate(lib, env, a, s), Evaluate(lib, env, b, s));
    assert Evaluate(lib, env, Unary(Not, a), s) == UnaryOutcome(lib, Not, Evaluate(lib, env, a, s));
    assert Evaluate(lib, env, Unary(Not, b), s) == UnaryOutcome(lib, Not, Evaluate(lib, env, b, s));
  }

  function Abs(x: real): real { if x < 0.0 then -x else x }

  lemma TruncationIsNear(q: real)
    ensures -1.0 < q - Truncate(q) as real < 1.0
    ensures q >= 0.0 ==> q - Truncate(q) as real >= 0.0
    ensures q <= 0.0 ==> q - Truncate(q) as real <= 0.0
  {}

  lemma QuotientTimesDivisor(x: real, y: real)
    requires y != 0.0
    ensures Product(y, x / y) == x && Product(x / y, y) == x
  {}

  lemma ProductOfDifference(y: real, q: real, t: real)
    ensures Product(y, q) - Product(y, t) == Product(y, q - t)
  {}

  lemma SmallProduct(y: real, f: real)
    requires y != 0.0 && -1.0 < f < 1.0
    ensures -Abs(y) < Product(y, f) < Abs(y)
  {}

  lemma ProductSign(y: real, f: real)
    ensures Product(y, f) > 0.0 <==> (y > 0.0 && f > 0.0) || (y < 0.0 && f < 0.0)
    ensures Product(y, f) < 0.0 <==> (y > 0.0 && f < 0.0) || (y < 0.0 && f > 0.0)
  {}

  lemma SameSign(y: real, f: real, q: real)
    requires (q >= 0.0 ==> f >= 0.0) && (q <= 0.0 ==> f <= 0.0)
    ensures Product(y, f) > 0.0 ==> Product(y, q) > 0.0
    ensures Product(y, f) < 0.0 ==> Product(y, q) < 0.0
  {
    ProductSign(y, f);
    ProductSign(y, q);
  }

  /**
   * Division and remainder are defined unless the divisor is zero. The remainder completes the
   * truncated quotient, is smaller than the divisor, and has the sign of the dividend.
   */
  lemma RemainderCompletesQuotient(lib: Library, x: real, y: real)
    ensures Arithmetic(lib, Divide, x, y).Some? <==> y != 0.0
    ensures Arithmetic(lib, Modulo, x, y).Some? <==> y != 0.0
    ensures y != 0.0 ==>
              var q, r := Arithmetic(lib, Divide, x, y).value, Arithmetic(lib, Modulo, x, y).value;
              && Product(q, y) == x
              && Product(y, Truncate(q) as real) + r == x
              && -Abs(y) < r < Abs(y)
              && (r > 0.0 ==> x > 0.0) && (r < 0.0 ==> x < 0.0)
  {
    if y != 0.0 {
      var q := x / y;
      var t := Truncate(q) as real;
      assert Arithmetic(lib, Modulo, x, y).value == x - Product(y, t);
      QuotientTimesDivisor(x, y);
      ProductOfDifference(y, q, t);
      TruncationIsNear(q);
      SmallProduct(y, q - t);
      SameSign(y, q - t, q);
    }
  }

  /** Floor and ceiling are the nearest integers below and above; rounding takes the nearest, ties upwards. */
  lemma RoundingIsNearest(lib: Library, x: real)
    ensures var down, up := ApplyUnary(lib, Floor, NumV(x)).v.n, ApplyUnary(lib, Ceil, NumV(x)).v.n;
            var near := ApplyUnary(lib, Round, NumV(x)).v.n;
            && IsInteger(down) && IsInteger(up) && IsInteger(near)
            && down <= x < down + 1.0 && up - 1.0 < x <= up
            && x - 0.5 < near <= x + 0.5
  {}

  // ---------------------------------------------------------------------------
  // What expressions evaluate to
  // ---------------------------------------------------------------------------

  ghost predicate Yields(lib: Library, env: Env, e: Expression, s: Strategy, v: Value) {
    Evaluate(lib, env, e, s) == Val(v)
  }

  lemma BinaryEvaluates(lib: Library, env: Env, op: BinaryOperator, a: Expression, b: Expression, s: Strategy)
    ensures Evaluate(lib, env, Binary(op, a, b), s)
         == BinaryOutcome(lib, op, s, Evaluate(lib, env, a, s), Evaluate(lib, env, b, s))
  {}

  lemma NumbersCompare(lib: Library, s: Strategy, x: real, y: real)
    ensures BinaryOutcome(lib, Less, s, Val(NumV(x)), Val(NumV(y))) == Val(BoolV(x < y))
    ensures BinaryOutcome(lib, LessEqual, s, Val(NumV(x)), Val(NumV(y))) == Val(BoolV(x <= y))
    ensures BinaryOutcome(lib, Greater, s, Val(NumV(x)), Val(NumV(y))) == Val(BoolV(x > y))
    ensures BinaryOutcome(lib, GreaterEqual, s, Val(NumV(x)), Val(NumV(y))) == Val(BoolV(x >= y))
  {}

  lemma NumbersCombine(lib: Library, s: Strategy, x: real, y: real)
    ensures BinaryOutcome(lib, Add, s, Val(NumV(x)), Val(NumV(y))) == Val(NumV(x + y))
    ensures BinaryOutcome(lib, Subtract, s, Val(NumV(x)), Val(NumV(y))) == Val(NumV(x - y))
    ensures BinaryOutcome(lib, Times, s, Val(NumV(x)), Val(NumV(y))) == Val(NumV(Product(x, y)))
  {}

  lemma BooleansCombine(lib: Library, s: Strategy, p: bool, q: bool)
    ensures BinaryOutcome(lib, And, s, Val(BoolV(p)), Val(BoolV(q))) == Val(BoolV(p && q))
    ensures BinaryOutcome(lib, Or, s, Val(BoolV(p)), Val(BoolV(q))) == Val(BoolV(p || q))
    ensures BinaryOutcome(lib, Xor, s, Val(BoolV(p)), Val(BoolV(q))) == Val(BoolV(p != q))
  {}

  /** Comparisons of numbers follow the order of the numbers. */
  lemma ComparisonsFollowTheOrder(lib: Library, env: Env, a: Expression, b: Expression, s: Strategy, x: real, y: real)
    requires Yields(lib, env, a, s, NumV(x)) && Yields(lib, env, b, s, NumV(y))
    ensures Yields(lib, env, Binary(Less, a, b), s, BoolV(x < y))
    ensures Yields(lib, env, Binary(LessEqual, a, b), s, BoolV(x <= y))
    ensures Yields(lib, env, Binary(Greater, a, b), s, BoolV(x > y))
    ensures Yields(lib, env, Binary(GreaterEqual, a, b), s, BoolV(x >= y))
  {
    NumbersCompare(lib, s, x, y);
    BinaryEvaluates(lib, env, Less, a, b, s);
    BinaryEvaluates(lib, env, LessEqual, a, b, s);
    BinaryEvaluates(lib, env, Greater, a, b, s);
    BinaryEvaluates(lib, env, GreaterEqual, a, b, s);
  }

  /** Equality is that of values, of whatever kind they are. */
  lemma EqualityComparesValues(lib: Library, env: Env, a: Expression, b: Expression, s: Strategy, v: Value, w: Value)
    requires Yields(lib, env, a, s, v) && Yields(lib, env, b, s, w)
    ensures Yields(lib, env, Binary(Equal, a, b), s, BoolV(v == w))
    ensures Yields(lib, env, Binary(NotEqual, a, b), s, BoolV(v != w))
  {}

  /** The logical operators on booleans; neither strategy changes their values. */
  lemma LogicComputes(lib: Library, env: Env, a: Expression, b: Expression, s: Strategy, p: bool, q: bool)
    requires Yields(lib, env, a, s, BoolV(p)) && Yields(lib, env, b, s, BoolV(q))
    ensures Yields(lib, env, Binary(And, a, b), s, BoolV(p && q))
    ensures Yields(lib, env, Binary(Or, a, b), s, BoolV(p || q))
    ensures Yields(lib, env, Binary(Xor, a, b), s, BoolV(p != q))
    ensures Yields(lib, env, Unary(Not, a), s, BoolV(!p))
  {
    BooleansCombine(lib, s, p, q);
    BinaryEvaluates(lib, env, And, a, b, s);
    BinaryEvaluates(lib, env, Or, a, b, s);
    BinaryEvaluates(lib, env, Xor, a, b, s);
  }

  /** The comparisons define each other, and exactly one of less, equal and greater holds. */
  lemma ComparisonsDefineEachOther(lib: Library, env: Env, a: Expression, b: Expression, s: Strategy, x: real, y: real)
    requires Yields(lib, env, a, s, NumV(x)) && Yields(lib, env, b, s, NumV(y))
    ensures var less, equal, greater := Binary(Less, a, b), Binary(Equal, a, b), Binary(Greater, a, b);
            && Evaluate(lib, env, greater, s) == Evaluate(lib, env, Binary(Less, b, a), s)
            && Evaluate(lib, env, Binary(LessEqual, a, b), s) == Evaluate(lib, env, Binary(Or, less, equal), s)
            && Evaluate(lib, env, Binary(GreaterEqual, a, b), s) == Evaluate(lib, env, Unary(Not, less), s)
            && Yields(lib, env, Binary(Xor, less, Binary(Xor, equal, greater)), s, BoolV(true))
            && Yields(lib, env, Binary(And, less, greater), s, BoolV(false))
            && Yields(lib, env, Binary(And, equal, Binary(Or, less, greater)), s, BoolV(false))
  {
    var less, equal, greater := Binary(Less, a, b), Binary(Equal, a, b), Binary(Greater, a, b);
    ComparisonsFollowTheOrder(lib, env, a, b, s, x, y);
    ComparisonsFollowTheOrder(lib, env, b, a, s, y, x);
    EqualityComparesValues(lib, env, a, b, s, NumV(x), NumV(y));
    LogicComputes(lib, env, less, equal, s, x < y, x == y);
    LogicComputes(lib, env, equal, greater, s, x == y, x > y);
    LogicComputes(lib, env, less, greater, s, x < y, x > y);
    LogicComputes(lib, env, less, Binary(Xor, equal, greater), s, x < y, (x == y) != (x > y));
    LogicComputes(lib, env, equal, Binary(Or, less, greater), s, x == y, x < y || x > y);
  }

  /** Sums, differences and products. */
  lemma ArithmeticComputes(lib: Library, env: Env, a: Expression, b: Expression, s: Strategy, x: real, y: real)
    requires Yields(lib, env, a, s, NumV(x)) && Yields(lib, env, b, s, NumV(y))
    ensures Yields(lib, env, Binary(Add, a, b), s, NumV(x + y))
    ensures Yields(lib, env, Binary(Subtract, a, b), s, NumV(x - y))
    ensures Yields(lib, env, Binary(Times, a, b), s, NumV(Product(x, y)))
  {
    NumbersCombine(lib, s, x, y);
    BinaryEvaluates(lib, env, Add, a, b, s);
    BinaryEvaluates(lib, env, Subtract, a, b, s);
    BinaryEvaluates(lib, env, Times, a, b, s);
  }

  /** Products are those of the numbers. */
  lemma ProductsAreExact(lib: Library, env: Env, a: Expression, b: Expression, s: Strategy, x: real, y: real)
    requires Yields(lib, env, a, s, NumV(x)) && Yields(lib, env, b, s, NumV(y))
    ensures Yields(lib, env, Binary(Times, a, b), s, NumV(x * y))
  {
    ArithmeticComputes(lib, env, a, b, s, x, y);
  }

  predicate IsRemainder(x: real, y: real, quotient: int, r: real) { x == Product(y, quotient as real) + r }

  /**
   * The quotient times the divisor is the dividend. The remainder completes a whole multiple of the divisor,
   * is smaller than it and has the sign of the dividend. Both are undefined for the divisor zero.
   */
  lemma DivisionComputes(lib: Library, env: Env, a: Expression, b: Expression, s: Strategy, x: real, y: real)
    requires Yields(lib, env, a, s, NumV(x)) && Yields(lib, env, b, s, NumV(y))
    ensures var o := Evaluate(lib, env, Binary(Divide, a, b), s);
            if y == 0.0 then o == Undef else o.Val? && o.v.NumV? && Product(o.v.n, y) == x
    ensures var o := Evaluate(lib, env, Binary(Modulo, a, b), s);
            if y == 0.0 then o == Undef
            else && o.Val? && o.v.NumV? && -Abs(y) < o.v.n < Abs(y)
                 && (o.v.n > 0.0 ==> x > 0.0) && (o.v.n < 0.0 ==> x < 0.0)
                 && exists q: int :: IsRemainder(x, y, q, o.v.n)
  {
    RemainderCompletesQuotient(lib, x, y);
    if y != 0.0 {
      var q := Truncate(Arithmetic(lib, Divide, x, y).value);
      assert IsRemainder(x, y, q, Arithmetic(lib, Modulo, x, y).value);
    }
  }

  /** The base or radicand is on the left; without result the operators are undefined. */
  lemma PowersCompute(lib: Library, env: Env, a: Expression, b: Expression, s: Strategy, x: real, y: real)
    requires Yields(lib, env, a, s, NumV(x)) && Yields(lib, env, b, s, NumV(y))
    ensures Evaluate(lib, env, Binary(Pow, a, b), s)
         == match lib.pow(x, y) case None => Undef case Some(z) => Val(NumV(z))
    ensures Evaluate(lib, env, Binary(Root, a, b), s)
         == match lib.root(x, y) case None => Undef case Some(z) => Val(NumV(z))
  {}

  lemma ProductDistributes(x: real, y: real, z: real)
    ensures Product(x, y + z) == Product(x, y) + Product(x, z)
  {}

  lemma QuotientIsUnique(q: real, x: real, y: real)
    requires y != 0.0 && Product(q, y) == Product(x, y)
    ensures q == x
  {}

  /** Subtraction undoes addition. */
  lemma SubtractionUndoesAddition(lib: Library, env: Env, a: Expression, b: Expression, s: Strategy, x: real, y: real)
    requires Yields(lib, env, a, s, NumV(x)) && Yields(lib, env, b, s, NumV(y))
    ensures Evaluate(lib, env, Binary(Subtract, Binary(Add, a, b), b), s) == Evaluate(lib, env, a, s)
  {
    SumsCompute(lib, env, a, b, s, x, y);
    ArithmeticComputes(lib, env, Binary(Add, a, b), b, s, x + y, y);
  }

  /** Division undoes multiplication by a number other than zero. */
  lemma DivisionUndoesMultiplication(lib: Library, env: Env, a: Expression, b: Expression, s: Strategy,
                                     x: real, y: real)
    requires Yields(lib, env, a, s, NumV(x)) && Yields(lib, env, b, s, NumV(y)) && y != 0.0
    ensures Evaluate(lib, env, Binary(Divide, Binary(Times, a, b), b), s) == Evaluate(lib, env, a, s)
  {
    ArithmeticComputes(lib, env, a, b, s, x, y);
    DivisionComputes(lib, env, Binary(Times, a, b), b, s, Product(x, y), y);
    QuotientIsUnique(Evaluate(lib, env, Binary(Divide, Binary(Times, a, b), b), s).v.n, x, y);
  }

  lemma SumsCompute(lib: Library, env: Env, a: Expression, b: Expression, s: Strategy, x: real, y: real)
    requires Yields(lib, env, a, s, NumV(x)) && Yields(lib, env, b, s, NumV(y))
    ensures Yields(lib, env, Binary(Add, a, b), s, NumV(x + y))
  {
    ArithmeticComputes(lib, env, a, b, s, x, y);
  }

  lemma ProductsCompute(lib: Library, env: Env, a: Expression, b: Expression, s: Strategy, x: real, y: real)
    requires Yields(lib, env, a, s, NumV(x)) && Yields(lib, env, b, s, NumV(y))
    ensures Yields(lib, env, Binary(Times, a, b), s, NumV(Product(x, y)))
  {
    ArithmeticComputes(lib, env, a, b, s, x, y);
  }

  lemma ProductOfSum(lib: Library, env: Env, a: Expression, b: Expression, c: Expression, s: Strategy,
                     x: real, y: real, z: real)
    requires Yields(lib, env, a, s, NumV(x)) && Yields(lib, env, b, s, NumV(y)) && Yields(lib, env, c, s, NumV(z))
    ensures Yields(lib, env, Binary(Times, a, Binary(Add, b, c)), s, NumV(Product(x, y + z)))
  {
    SumsCompute(lib, env, b, c, s, y, z);
    ProductsCompute(lib, env, a, Binary(Add, b, c), s, x, y + z);
  }

  lemma SumOfProducts(lib: Library, env: Env, a: Expression, b: Expression, c: Expression, s: Strategy,
                      x: real, y: real, z: real)
    requires Yields(lib, env, a, s, NumV(x)) && Yields(lib, env, b, s, NumV(y)) && Yields(lib, env, c, s, NumV(z))
    ensures Yields(lib, env, Binary(Add, Binary(Times, a, b), Binary(Times, a, c)), s,
                   NumV(Product(x, y) + Product(x, z)))
  {
    ProductsCompute(lib, env, a, b, s, x, y);
    ProductsCompute(lib, env, a, c, s, x, z);
    SumsCompute(lib, env, Binary(Times, a, b), Binary(Times, a, c), s, Product(x, y), Product(x, z));
  }

  /** Multiplication distributes over addition. */
  lemma MultiplicationDistributes(lib: Library, env: Env, a: Expression, b: Expression, c: Expression, s: Strategy,
                                  x: real, y: real, z: real)
    requires Yields(lib, env, a, s, NumV(x)) && Yields(lib, env, b, s, NumV(y)) && Yields(lib, env, c, s, NumV(z))
    ensures Evaluate(lib, env, Binary(Times, a, Binary(Add, b, c)), s)
         == Evaluate(lib, env, Binary(Add, Binary(Times, a, b), Binary(Times, a, c)), s)
  {
    ProductOfSum(lib, env, a, b, c, s, x, y, z);
    SumOfProducts(lib, env, a, b, c, s, x, y, z);
    ProductDistributes(x, y, z);
  }

  /** A false left operand decides `and`, a true one `or`; exhaustive evaluation still needs a value on the right. */
  lemma LeftOperandDecides(lib: Library, env: Env, op: BinaryOperator, a: Expression, b: Expression, p: bool)
    requires (op.And? && !p) || (op.Or? && p)
    ensures Yields(lib, env, a, Lazy, BoolV(p)) ==> Yields(lib, env, Binary(op, a, b), Lazy, BoolV(p))
    ensures Yields(lib, env, a, Exhaustive, BoolV(p)) && !Evaluate(lib, env, b, Exhaustive).Val? ==>
              Evaluate(lib, env, Binary(op, a, b), Exhaustive) == Evaluate(lib, env, b, Exhaustive)
  {}

  lemma OutcomeFailures(lib: Library, op: BinaryOperator, s: Strategy, l: Outcome, r: Outcome)
    ensures var o := BinaryOutcome(lib, op, s, l, r);
            && (l.Thrown() ==> o == l)
            && (l.Undef? ==> o == if s.Exhaustive? && r.Thrown() then r else Undef)
            && (l.Val? && !r.Val? && !op.And? && !op.Or? ==> o == r)
            && (l.Val? && !r.Val? && (op.And? || op.Or?) && !(s.Lazy? && l.v == BoolV(op.Or?)) ==>
                  o == if l.v.BoolV? then r else AssertionFailed)
  {}

  /**
   * An operand without value leaves the whole without value. Of two such operands the left one decides,
   * except that exhaustive evaluation prefers an error thrown by the right one to an undefined left one.
   */
  lemma FailuresPropagate(lib: Library, env: Env, op: BinaryOperator, a: Expression, b: Expression, s: Strategy)
    ensures var l, r, o := Evaluate(lib, env, a, s), Evaluate(lib, env, b, s), Evaluate(lib, env, Binary(op, a, b), s);
            && (l.Thrown() ==> o == l)
            && (l.Undef? ==> o == if s.Exhaustive? && r.Thrown() then r else Undef)
            && (l.Val? && !r.Val? && !op.And? && !op.Or? ==> o == r)
            && (l.Val? && !r.Val? && (op.And? || op.Or?) && !(s.Lazy? && l.v == BoolV(op.Or?)) ==>
                  o == if l.v.BoolV? then r else AssertionFailed)
  {
    OutcomeFailures(lib, op, s, Evaluate(lib, env, a, s), Evaluate(lib, env, b, s));
    BinaryEvaluates(lib, env, op, a, b, s);
  }

  lemma OutcomeChecks(lib: Library, op: BinaryOperator, s: Strategy, l: Value, r: Value)
    ensures var fails := BinaryOutcome(lib, op, s, Val(l), Val(r)).AssertionFailed?;
            && (op in {Equal, NotEqual} ==> !fails)
            && (op in {Pow, Root, Times, Divide, Modulo, Add, Subtract, Less, LessEqual, Greater, GreaterEqual} ==>
                  (fails <==> !(l.NumV? && r.NumV?)))
            && (op == Matches ==> (fails <==> !(l.TextV? && r.RegexV?)))
            && (op == In ==> (fails <==> !((l.TextV? || l.NumV?) && r.CollectionV?
                                           && forall e :: e in r.elements ==> e.TextV? || e.NumV?)))
            && (op == Xor ==> (fails <==> !(l.BoolV? && r.BoolV?)))
            && (op in {And, Or} ==>
                  (fails <==> !(l.BoolV? && (r.BoolV? || (s.Lazy? && l.b == op.Or?)))))
  {}

  /** Operands of the wrong kind fail an assertion, and others do not. */
  lemma OperandsAreChecked(lib: Library, env: Env, op: BinaryOperator, a: Expression, b: Expression, s: Strategy,
                           l: Value, r: Value)
    requires Yields(lib, env, a, s, l) && Yields(lib, env, b, s, r)
    ensures var fails := Evaluate(lib, env, Binary(op, a, b), s).AssertionFailed?;
            && (op in {Equal, NotEqual} ==> !fails)
            && (op in {Pow, Root, Times, Divide, Modulo, Add, Subtract, Less, LessEqual, Greater, GreaterEqual} ==>
                  (fails <==> !(l.NumV? && r.NumV?)))
            && (op == Matches ==> (fails <==> !(l.TextV? && r.RegexV?)))
            && (op == In ==> (fails <==> !((l.TextV? || l.NumV?) && r.CollectionV?
                                           && forall e :: e in r.elements ==> e.TextV? || e.NumV?)))
            && (op == Xor ==> (fails <==> !(l.BoolV? && r.BoolV?)))
            && (op in {And, Or} ==>
                  (fails <==> !(l.BoolV? && (r.BoolV? || (s.Lazy? && l.b == op.Or?)))))
  {
    OutcomeChecks(lib, op, s, l, r);
    BinaryEvaluates(lib, env, op, a, b, s);
  }

  /** Matching hands the text and then the pattern to the library. */
  lemma MatchingComputes(lib: Library, env: Env, a: Expression, b: Expression, s: Strategy, t: string, p: string)
    requires Yields(lib, env, a, s, TextV(t)) && Yields(lib, env, b, s, RegexV(p))
    ensures Yields(lib, env, Binary(Matches, a, b), s, BoolV(lib.matches(t, p)))
  {}

  lemma MembershipOutcome(lib: Library, s: Strategy, v: Value, elements: seq<Value>)
    requires TextOrNumber(v) && forall k :: 0 <= k < |elements| ==> TextOrNumber(elements[k])
    ensures BinaryOutcome(lib, In, s, Val(v), Val(CollectionV(elements))) == Val(BoolV(v in elements))
  {}

  /** A text or number is in a collection literal exactly if comparing it with some element for equality yields true. */
  lemma MembershipIsSomeEquality(lib: Library, env: Env, a: Expression, es: seq<Expression>, s: Strategy, v: Value)
    requires Yields(lib, env, a, s, v) && TextOrNumber(v)
    requires forall k :: 0 <= k < |es| ==>
               Evaluate(lib, env, es[k], s).Val? && TextOrNumber(Evaluate(lib, env, es[k], s).v)
    ensures var o := Evaluate(lib, env, Binary(In, a, CollectionLiteral(es)), s);
            && o.Val? && o.v.BoolV?
            && (o.v.b <==> exists k :: 0 <= k < |es| && Yields(lib, env, Binary(Equal, a, es[k]), s, BoolV(true)))
  {
    CollectionsEvaluatePointwise(lib, env, es, s);
    var elements := EvaluateAll(lib, env, es, s).v.elements;
    BinaryEvaluates(lib, env, In, a, CollectionLiteral(es), s);
    forall k | 0 <= k < |es|
      ensures Yields(lib, env, Binary(Equal, a, es[k]), s, BoolV(v == elements[k])) && TextOrNumber(elements[k])
    {
      EqualityComparesValues(lib, env, a, es[k], s, v, elements[k]);
    }
    MembershipOutcome(lib, s, v, elements);
  }

  /** Replacing hands the text, the pattern and the replacement to the library, in this order. */
  lemma ReplacingComputes(lib: Library, env: Env, a: Expression, b: Expression, c: Expression, s: Strategy,
                          t: string, p: string, r: string)
    requires Yields(lib, env, a, s, TextV(t)) && Yields(lib, env, b, s, RegexV(p)) && Yields(lib, env, c, s, TextV(r))
    ensures Yields(lib, env, Replace(a, b, c), s, TextV(lib.replace(t, p, r)))
  {}

  lemma ReplaceFailures(lib: Library, s: Strategy, x: Outcome, y: Outcome, z: Outcome)
    ensures var o := ReplaceOutcome(lib, s, x, y, z);
            if x.Thrown() || (s.Lazy? && x.Undef?) then o == x
            else if y.Thrown() then o == y
            else if z.Thrown() then o == z
            else if x.Val? && y.Val? && z.Val? then
              o.AssertionFailed? <==> !(x.v.TextV? && y.v.RegexV? && z.v.TextV?)
            else o == Undef
  {}

  /** Of several operands that throw, the first one decides; lazy evaluation stops at an undefined text. */
  lemma ReplacingFails(lib: Library, env: Env, a: Expression, b: Expression, c: Expression, s: Strategy)
    ensures var x, y, z := Evaluate(lib, env, a, s), Evaluate(lib, env, b, s), Evaluate(lib, env, c, s);
            var o := Evaluate(lib, env, Replace(a, b, c), s);
            if x.Thrown() || (s.Lazy? && x.Undef?) then o == x
            else if y.Thrown() then o == y
            else if z.Thrown() then o == z
            else if x.Val? && y.Val? && z.Val? then
              o.AssertionFailed? <==> !(x.v.TextV? && y.v.RegexV? && z.v.TextV?)
            else o == Undef
  {
    ReplaceFailures(lib, s, Evaluate(lib, env, a, s), Evaluate(lib, env, b, s), Evaluate(lib, env, c, s));
  }

  /** The unary operators on numbers. */
  lemma UnaryArithmeticComputes(lib: Library, env: Env, a: Expression, s: Strategy, x: real)
    requires Yields(lib, env, a, s, NumV(x))
    ensures Yields(lib, env, Unary(Plus, a), s, NumV(x))
    ensures Yields(lib, env, Unary(Minus, a), s, NumV(-x))
    ensures Evaluate(lib, env, Unary(Sqrt, a), s) == if x < 0.0 then Undef else Val(NumV(lib.sqrt(x)))
    ensures var o := Evaluate(lib, env, Unary(Floor, a), s);
            o.Val? && o.v.NumV? && IsInteger(o.v.n) && o.v.n <= x < o.v.n + 1.0
    ensures var o := Evaluate(lib, env, Unary(Ceil, a), s);
            o.Val? && o.v.NumV? && IsInteger(o.v.n) && o.v.n - 1.0 < x <= o.v.n
    ensures var o := Evaluate(lib, env, Unary(Round, a), s);
            o.Val? && o.v.NumV? && IsInteger(o.v.n) && x - 0.5 < o.v.n <= x + 0.5
  {
    RoundingIsNearest(lib, x);
  }

  /** The text with its capital letters made small. */
  function LowerCased(t: string): (r: string)
    ensures |r| == |t| && forall i :: 0 <= i < |t| ==> r[i] == if 'A' <= t[i] <= 'Z' then t[i] - 'A' + 'a' else t[i]
  {
    seq(|t|, i requires 0 <= i < |t| => if 'A' <= t[i] <= 'Z' then t[i] - 'A' + 'a' else t[i])
  }

  lemma BooleansIgnoreCase(t: string)
    ensures ParseBoolean(t) == if LowerCased(t) == "true" then Some(true)
                               else if LowerCased(t) == "false" then Some(false) else None
  {
    forall word: string ensures EqualsIgnoringCase(t, word) <==> LowerCased(t) == word {}
  }

  lemma WholeIffTruncated(d: real)
    ensures d == Truncate(d) as real <==> IsInteger(d)
  {
    if d == Truncate(d) as real { FloorOfWhole(Truncate(d)); }
    if IsInteger(d) && d < 0.0 { FloorOfWhole(-d.Floor); }
  }

  lemma FloorOfWhole(i: int)
    ensures (i as real).Floor == i
  {}

  lemma TextsParse(lib: Library, t: string)
    ensures UnaryOutcome(lib, AsDecimal, Val(TextV(t)))
         == match lib.parseDecimal(t) case None => ParseError case Some(d) => Val(NumV(d))
    ensures UnaryOutcome(lib, AsInteger, Val(TextV(t)))
         == match lib.parseDecimal(t)
            case None => ParseError
            case Some(d) => if IsInteger(d) then Val(NumV(d)) else ParseError
    ensures var lower := LowerCased(t);
            UnaryOutcome(lib, AsBoolean, Val(TextV(t)))
            == if lower == "true" then Val(BoolV(true)) else if lower == "false" then Val(BoolV(false)) else ParseError
  {
    BooleansIgnoreCase(t);
    if lib.parseDecimal(t).Some? { WholeIffTruncated(lib.parseDecimal(t).value); }
  }

  /** The unary operators on texts. Parsing a number as an integer fails unless it is whole. */
  lemma TextOperatorsCompute(lib: Library, env: Env, a: Expression, s: Strategy, t: string)
    requires Yields(lib, env, a, s, TextV(t))
    ensures Yields(lib, env, Unary(Lowercase, a), s, TextV(lib.lower(t)))
    ensures Yields(lib, env, Unary(Uppercase, a), s, TextV(lib.upper(t)))
    ensures Yields(lib, env, Unary(AsText, a), s, TextV(t))
    ensures Evaluate(lib, env, Unary(AsDecimal, a), s)
         == match lib.parseDecimal(t) case None => ParseError case Some(d) => Val(NumV(d))
    ensures Evaluate(lib, env, Unary(AsInteger, a), s)
         == match lib.parseDecimal(t)
            case None => ParseError
            case Some(d) => if IsInteger(d) then Val(NumV(d)) else ParseError
    ensures var lower := LowerCased(t);
            Evaluate(lib, env, Unary(AsBoolean, a), s)
            == if lower == "true" then Val(BoolV(true)) else if lower == "false" then Val(BoolV(false)) else ParseError
  {
    TextsParse(lib, t);
  }

  /** A unary operator passes a missing value on, and fails an assertion on a value of the wrong kind. */
  lemma UnaryOperandIsChecked(lib: Library, env: Env, op: UnaryOperator, a: Expression, s: Strategy)
    ensures var o, r := Evaluate(lib, env, a, s), Evaluate(lib, env, Unary(op, a), s);
            && (!o.Val? ==> r == o)
            && (o.Val? ==>
                  (r.AssertionFailed? <==>
                     if op == Not then !o.v.BoolV?
                     else if op in {Plus, Minus, Sqrt, Floor, Ceil, Round} then !o.v.NumV?
                     else !o.v.TextV?))
  {}

  /** Literals and references stand for themselves; variables and the keyword for what they are bound to. */
  lemma LeavesDenote(lib: Library, env: Env, s: Strategy, t: string, b: bool, n: real, x: string, id: nat)
    ensures Yields(lib, env, TextLiteral(t), s, TextV(t)) && Yields(lib, env, BooleanLiteral(b), s, BoolV(b))
    ensures Yields(lib, env, NumericLiteral(n), s, NumV(n)) && Yields(lib, env, RegexLiteral(t), s, RegexV(t))
    ensures Yields(lib, env, CellRangeLiteral(t), s, CellRangeV(t))
    ensures Yields(lib, env, AssignmentLiteral(id), s, AssignmentV(id))
    ensures Yields(lib, env, ConstraintReference(id), s, ConstraintV(id))
    ensures Yields(lib, env, TransformReference(id), s, TransformV(id))
    ensures Evaluate(lib, env, VariableReference(x), s)
         == if x in env.variables then Val(env.variables[x]) else Undef
    ensures var value, length := Evaluate(lib, env, ValueKeyword(false), s), Evaluate(lib, env, ValueKeyword(true), s);
            match env.keyword
            case None => value == Undef && length == Undef
            case Some(TextV(text)) => value == Val(TextV(text)) && length == Val(NumV(|text| as real))
            case Some(v) => value == Val(v) && length == AssertionFailed
  {}
}
