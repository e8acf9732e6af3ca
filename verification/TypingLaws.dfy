/** The typing rules: which expressions have a type, and which one. */
module TypingLaws {
  import opened Common
  import opened ValueTypes
  import opened TypeJoin
  import opened Expressions

  lemma LiteralsAreTyped(ctx: TypingContext, t: string, b: bool, n: real, id: nat)
    requires ctx.Valid()
    ensures Infer(ctx, TextLiteral(t)) == Some(TextType) && Infer(ctx, BooleanLiteral(b)) == Some(BooleanType)
    ensures Infer(ctx, NumericLiteral(n)) == Some(if IsInteger(n) then IntegerType else DecimalType)
    ensures Infer(ctx, CellRangeLiteral(t)) == Some(CellRangeType) && Infer(ctx, RegexLiteral(t)) == Some(RegexType)
    ensures Infer(ctx, AssignmentLiteral(id)) == Some(AssignmentType)
    ensures Infer(ctx, ConstraintReference(id)) == Some(ConstraintType)
    ensures Infer(ctx, TransformReference(id)) == Some(TransformType)
  {}

  /** Variables and the keyword have their declared types; only texts have a length. */
  lemma VariablesAreTyped(ctx: TypingContext, x: string)
    requires ctx.Valid()
    ensures Infer(ctx, VariableReference(x)) == if x in ctx.variables then Some(ctx.variables[x]) else None
    ensures Infer(ctx, ValueKeyword(false)) == ctx.keyword
    ensures Infer(ctx, ValueKeyword(true))
         == if ctx.keyword.Some? && IsConvertibleTo(ctx.hierarchy, ctx.keyword.value, TextType)
            then Some(IntegerType) else None
  {}

  /** The numbers of integer type are the whole ones. */
  lemma WholeNumbersAreIntegers(ctx: TypingContext, i: int, n: real)
    requires ctx.Valid()
    ensures Infer(ctx, NumericLiteral(i as real)) == Some(IntegerType)
    ensures i as real < n < i as real + 1.0 ==> Infer(ctx, NumericLiteral(n)) == Some(DecimalType)
  {
    if i as real < n < i as real + 1.0 { assert n.Floor == i; }
  }

  /** An operator without typed operand has no type; otherwise the operand must convert to the type it expects. */
  lemma UnaryOperatorsAreTyped(ctx: TypingContext, op: UnaryOperator, a: Expression)
    requires ctx.Valid()
    ensures var operand, result := Infer(ctx, a), Infer(ctx, Unary(op, a));
            if operand.None? then result.None?
            else
              var t, h := operand.value, ctx.hierarchy;
              && (op == Not ==> result == if IsConvertibleTo(h, t, BooleanType) then Some(BooleanType) else None)
              && (op in {Plus, Minus} ==> result == if IsConvertibleTo(h, t, DecimalType) then Some(t) else None)
              && (op == Sqrt ==> result == if IsConvertibleTo(h, t, DecimalType) then Some(DecimalType) else None)
              && (op in {Floor, Ceil, Round} ==>
                    result == if IsConvertibleTo(h, t, DecimalType) then Some(IntegerType) else None)
              && (op in {Lowercase, Uppercase, AsText} ==>
                    result == if IsConvertibleTo(h, t, TextType) then Some(TextType) else None)
              && (op == AsDecimal ==> result == if IsConvertibleTo(h, t, TextType) then Some(DecimalType) else None)
              && (op == AsInteger ==> result == if IsConvertibleTo(h, t, TextType) then Some(IntegerType) else None)
              && (op == AsBoolean ==> result == if IsConvertibleTo(h, t, TextType) then Some(BooleanType) else None)
  {}

  /** Sums, differences and products of integers are integers; all other arithmetic yields decimals. */
  lemma ArithmeticIsTyped(ctx: TypingContext, op: BinaryOperator, a: Expression, b: Expression)
    requires ctx.Valid() && Infer(ctx, a).Some? && Infer(ctx, b).Some?
    requires op in {Pow, Root, Times, Divide, Modulo, Add, Subtract}
    ensures var l, r, result := Infer(ctx, a).value, Infer(ctx, b).value, Infer(ctx, Binary(op, a, b));
            if IsConvertibleTo(ctx.hierarchy, l, DecimalType) && IsConvertibleTo(ctx.hierarchy, r, DecimalType)
            then result == Some(if op in {Times, Add, Subtract} && l == IntegerType && r == IntegerType
                                then IntegerType else DecimalType)
            else result.None?
  {}

  lemma PredicateType(h: Hierarchy, op: BinaryOperator, l: ValueType, r: ValueType)
    requires op in {Less, LessEqual, Greater, GreaterEqual, Matches, Xor, And, Or}
    ensures var left := if op in {Xor, And, Or} then BooleanType else if op == Matches then TextType else DecimalType;
            var right := if op == Matches then RegexType else left;
            BinaryType(h, op, l, r)
            == if IsConvertibleTo(h, l, left) && IsConvertibleTo(h, r, right) then Some(BooleanType) else None
  {}

  /** Comparisons, matching and the logical operators yield booleans. */
  lemma PredicatesAreTyped(ctx: TypingContext, op: BinaryOperator, a: Expression, b: Expression)
    requires ctx.Valid() && Infer(ctx, a).Some? && Infer(ctx, b).Some?
    requires op in {Less, LessEqual, Greater, GreaterEqual, Matches, Xor, And, Or}
    ensures var l, r, h := Infer(ctx, a).value, Infer(ctx, b).value, ctx.hierarchy;
            var left := if op in {Xor, And, Or} then BooleanType else if op == Matches then TextType else DecimalType;
            var right := if op == Matches then RegexType else left;
            Infer(ctx, Binary(op, a, b))
            == if IsConvertibleTo(h, l, left) && IsConvertibleTo(h, r, right) then Some(BooleanType) else None
  {
    PredicateType(ctx.hierarchy, op, Infer(ctx, a).value, Infer(ctx, b).value);
  }

  /** Equal types, or one integer and one decimal. */
  predicate Comparable(t: ValueType, u: ValueType) {
    t == u || (t == IntegerType && u == DecimalType) || (t == DecimalType && u == IntegerType)
  }

  /** Values can be compared for equality if they are booleans, texts or numbers; user-defined types are excluded. */
  lemma EqualityIsTyped(ctx: TypingContext, op: BinaryOperator, a: Expression, b: Expression)
    requires ctx.Valid() && Infer(ctx, a).Some? && Infer(ctx, b).Some? && op in {Equal, NotEqual}
    ensures var l, r := Infer(ctx, a).value, Infer(ctx, b).value;
            Infer(ctx, Binary(op, a, b))
            == if l in {BooleanType, TextType, IntegerType, DecimalType} && Comparable(l, r)
               then Some(BooleanType) else None
  {}

  lemma MembershipType(h: Hierarchy, l: ValueType, r: ValueType)
    ensures BinaryType(h, In, l, r)
         == if l in {TextType, IntegerType, DecimalType} && r.CollectionType? && Comparable(l, r.elementType)
            then Some(BooleanType) else None
  {}

  /** Texts and numbers can be looked for in collections of such. */
  lemma MembershipIsTyped(ctx: TypingContext, a: Expression, b: Expression)
    requires ctx.Valid() && Infer(ctx, a).Some? && Infer(ctx, b).Some?
    ensures var l, r := Infer(ctx, a).value, Infer(ctx, b).value;
            Infer(ctx, Binary(In, a, b))
            == if l in {TextType, IntegerType, DecimalType} && r.CollectionType? && Comparable(l, r.elementType)
               then Some(BooleanType) else None
  {
    MembershipType(ctx.hierarchy, Infer(ctx, a).value, Infer(ctx, b).value);
  }

  lemma ReplacingIsTyped(ctx: TypingContext, a: Expression, b: Expression, c: Expression)
    requires ctx.Valid()
    ensures var x, y, z, h := Infer(ctx, a), Infer(ctx, b), Infer(ctx, c), ctx.hierarchy;
            Infer(ctx, Replace(a, b, c))
            == if x.Some? && IsConvertibleTo(h, x.value, TextType) && y.Some? && IsConvertibleTo(h, y.value, RegexType)
                  && z.Some? && IsConvertibleTo(h, z.value, TextType)
               then Some(TextType) else None
  {}

  /** An operator is typed only if all its operands are. */
  lemma OperandsAreTyped(ctx: TypingContext, op: BinaryOperator, a: Expression, b: Expression)
    requires ctx.Valid() && Infer(ctx, Binary(op, a, b)).Some?
    ensures Infer(ctx, a).Some? && Infer(ctx, b).Some?
  {}

  lemma {:induction false} ElementTypes(ctx: TypingContext, es: seq<Expression>)
    requires ctx.Valid()
    ensures InferAll(ctx, es).Some? <==> forall k :: 0 <= k < |es| ==> Infer(ctx, es[k]).Some?
    ensures InferAll(ctx, es).Some? ==>
              forall k :: 0 <= k < |es| ==> Infer(ctx, es[k]) == Some(InferAll(ctx, es).value[k])
    decreases |es|
  {
    if |es| > 0 {
      ElementTypes(ctx, es[1..]);
      assert forall k :: 0 < k < |es| ==> es[k] == es[1..][k - 1];
    }
  }

  /** All elements convert to the type. */
  ghost predicate Covers(ctx: TypingContext, es: seq<Expression>, t: ValueType)
    requires ctx.Valid()
  {
    forall k :: 0 <= k < |es| ==> Infer(ctx, es[k]).Some? && IsConvertibleTo(ctx.hierarchy, Infer(ctx, es[k]).value, t)
  }

  /**
   * A collection literal is a collection of the least type that all its elements convert to, and has no
   * type if there is none. The empty one has a type of its own, which converts to every collection type.
   */
  lemma CollectionsAreTyped(ctx: TypingContext, es: seq<Expression>)
    requires ctx.Valid()
    ensures es == [] ==> Infer(ctx, CollectionLiteral(es)) == Some(EmptyCollectionType)
    ensures es != [] && Infer(ctx, CollectionLiteral(es)).None? ==> forall t :: !Covers(ctx, es, t)
    ensures es != [] && Infer(ctx, CollectionLiteral(es)).Some? ==>
              var t := Infer(ctx, CollectionLiteral(es)).value;
              && t.CollectionType? && Covers(ctx, es, t.elementType)
              && forall u :: Covers(ctx, es, u) ==> IsConvertibleTo(ctx.hierarchy, t.elementType, u)
  {
    ElementTypes(ctx, es);
    if es != [] && InferAll(ctx, es).Some? {
      var types := InferAll(ctx, es).value;
      JoinIsLeastUpperBound(ctx.hierarchy, types);
      forall t ensures Covers(ctx, es, t) <==> UpperBound(ctx.hierarchy, types, t) {
        assert forall k :: 0 <= k < |es| ==> types[k] in types;
      }
    }
  }
}
