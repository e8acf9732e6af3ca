/** Writing down the values that the simplification check reports keeps an expression well-typed. */
module SimplificationTyping {
  import opened Common
  import opened ValueTypes
  import opened Expressions
  import opened TypeSoundness
  import opened Simplification

  // ---------------------------------------------------------------------------
  // The types of what is reported
  // ---------------------------------------------------------------------------

  /** What is collected collects itself. */
  lemma {:induction false} CollectedIsWhole(e: Expression, p: Position)
    requires p in Collect(e)
    ensures At(e, p).Some? && Collect(At(e, p).value) == [[]]
    decreases e
  {
    InCollectFrom(e, 0, p);
    if |p| > 0 {
      CollectedIsWhole(Operands(e)[p[0]], p[1..]);
    }
  }

  lemma OperandsOfWhole(e: Expression)
    requires Collect(e) == [[]] && !IsLiteral(e)
    ensures forall a :: a in Operands(e) ==> Collect(a) == [[]]
  {
    InCollectFrom(e, 0, []);
    var whole: seq<Position> := [[]];
    assert whole[0] in whole;
  }

  /** Without variables at hand, no expression has a user-defined type. */
  lemma {:induction false} WholeTypeIsNotAtomic(ctx: TypingContext, e: Expression)
    requires ctx.Valid() && Collect(e) == [[]] && Infer(ctx, e).Some?
    ensures !Infer(ctx, e).value.AtomicType?
    decreases e
  {
    if e.Unary? {
      OperandsOfWhole(e);
      assert Operands(e)[0] == e.operand;
      WholeTypeIsNotAtomic(ctx, e.operand);
    }
  }

  predicate Simple(t: ValueType) {
    t.BooleanType? || t.TextType? || t.IntegerType? || t.DecimalType?
  }

  lemma CollectedTypeIsSimple(ctx: TypingContext, e: Expression)
    requires ctx.Valid() && Collect(e) == [[]] && !IsLiteral(e) && Infer(ctx, e).Some?
    ensures Simple(Infer(ctx, e).value)
  {
    if e.Unary? {
      OperandsOfWhole(e);
      assert Operands(e)[0] == e.operand;
      WholeTypeIsNotAtomic(ctx, e.operand);
    }
  }

  /** The same type, or an integer in the place of a decimal. */
  predicate Narrows(t: ValueType, u: ValueType) {
    t == u || (t.IntegerType? && u.DecimalType?)
  }

  lemma WrittenTypeNarrows(ctx: TypingContext, v: Value, t: ValueType)
    requires ctx.Valid() && Simple(t) && IsRepresentation(ctx.hierarchy, t, v)
    ensures Writable(v) && Infer(ctx, Written(v)).Some? && Narrows(Infer(ctx, Written(v)).value, t)
  {}

  lemma {:induction false} PartIsTyped(ctx: TypingContext, e: Expression, p: Position)
    requires ctx.Valid() && Infer(ctx, e).Some? && At(e, p).Some?
    ensures Infer(ctx, At(e, p).value).Some?
    decreases |p|
  {
    if |p| > 0 { PartIsTyped(ctx, Operands(e)[p[0]], p[1..]); }
  }

  /** A reported value, written down, has the type of what it replaces, or a narrower one. */
  lemma ReportedTypeNarrows(lib: Library, ctx: TypingContext, validation: Env, e: Expression, r: Report)
    requires ctx.Valid() && Conforms(ctx, validation) && Infer(ctx, e).Some? && IsReport(lib, validation, e, r)
    ensures Writable(r.value) && Infer(ctx, Written(r.value)).Some? && Infer(ctx, At(e, r.at).value).Some?
    ensures Narrows(Infer(ctx, Written(r.value)).value, Infer(ctx, At(e, r.at).value).value)
  {
    var part := At(e, r.at).value;
    PartIsTyped(ctx, e, r.at);
    CollectedIsWhole(e, r.at);
    CollectedTypeIsSimple(ctx, part);
    InferenceIsSound(lib, ctx, validation, part, Exhaustive);
    WrittenTypeNarrows(ctx, r.value, Infer(ctx, part).value);
  }

  // ---------------------------------------------------------------------------
  // Replacing keeps types
  // ---------------------------------------------------------------------------

  lemma NarrowerConverts(h: Hierarchy, t: ValueType, u: ValueType, w: ValueType)
    requires Narrows(t, u) && IsConvertibleTo(h, u, w)
    ensures IsConvertibleTo(h, t, w)
  {}

  lemma UnaryNarrows(h: Hierarchy, op: UnaryOperator, t: ValueType, u: ValueType)
    requires Narrows(t, u) && UnaryType(h, op, u).Some?
    ensures UnaryType(h, op, t).Some? && Narrows(UnaryType(h, op, t).value, UnaryType(h, op, u).value)
  {
    NarrowerConverts(h, t, u, ExpectedOperand(op));
  }

  lemma BinaryNarrows(h: Hierarchy, op: BinaryOperator, t: ValueType, u: ValueType, t': ValueType, u': ValueType)
    requires Narrows(t, u) && Narrows(t', u') && BinaryType(h, op, u, u').Some?
    ensures BinaryType(h, op, t, t').Some? && Narrows(BinaryType(h, op, t, t').value, BinaryType(h, op, u, u').value)
  {
    if !op.Equal? && !op.NotEqual? && !op.In? {
      NarrowerConverts(h, t, u, ExpectedOperands(op).0);
      NarrowerConverts(h, t', u', ExpectedOperands(op).1);
    }
  }

  /** Inference is monotone: narrowing a part of an expression narrows its type at most. */
  lemma {:induction false} PutNarrows(ctx: TypingContext, e: Expression, p: Position, x: Expression)
    requires ctx.Valid() && Infer(ctx, e).Some? && At(e, p).Some? && Infer(ctx, x).Some?
    requires Infer(ctx, At(e, p).value).Some? && Narrows(Infer(ctx, x).value, Infer(ctx, At(e, p).value).value)
    ensures Infer(ctx, Put(e, p, x)).Some? && Narrows(Infer(ctx, Put(e, p, x)).value, Infer(ctx, e).value)
    decreases |p|
  {
    if |p| > 0 {
      PutNarrows(ctx, Operands(e)[p[0]], p[1..], x);
      var h, after := ctx.hierarchy, Put(e, p, x);
      match e
      case Unary(op, a) =>
        UnaryNarrows(h, op, Infer(ctx, after.operand).value, Infer(ctx, a).value);
      case Binary(op, a, b) =>
        BinaryNarrows(h, op, Infer(ctx, after.left).value, Infer(ctx, a).value,
                      Infer(ctx, after.right).value, Infer(ctx, b).value);
      case Replace(a, b, c) =>
        NarrowerConverts(h, Infer(ctx, after.first).value, Infer(ctx, a).value, TextType);
        NarrowerConverts(h, Infer(ctx, after.second).value, Infer(ctx, b).value, RegexType);
        NarrowerConverts(h, Infer(ctx, after.third).value, Infer(ctx, c).value, TextType);
    }
  }

  lemma {:induction false} PutAllNarrows(lib: Library, ctx: TypingContext, validation: Env, e: Expression,
                                         reports: seq<Report>)
    requires ctx.Valid() && Conforms(ctx, validation) && Infer(ctx, e).Some?
    requires Reported(lib, validation, e, reports)
    ensures forall r :: r in reports ==> Writable(r.value)
    ensures Infer(ctx, PutAll(e, reports)).Some?
    ensures Narrows(Infer(ctx, PutAll(e, reports)).value, Infer(ctx, e).value)
    decreases |reports|
  {
    if |reports| > 0 {
      var r, rest := reports[|reports| - 1], reports[..|reports| - 1];
      SplitLast(reports);
      PutAllNarrows(lib, ctx, validation, e, rest);
      LastIsUntouched(e, reports);
      ReportedTypeNarrows(lib, ctx, validation, e, r);
      PutNarrows(ctx, PutAll(e, rest), r.at, Written(r.value));
    }
  }

  /**
   * Applying all reports to a typed expression leaves it typed, with a type that converts to the one it had.
   * Unlike for the meaning, collection literals may hold variables here.
   */
  lemma SimplificationKeepsTyping(lib: Library, ctx: TypingContext, validation: Env, e: Expression)
    requires ctx.Valid() && Conforms(ctx, validation) && Infer(ctx, e).Some?
    ensures forall p :: p in Collect(e) ==> At(e, p).Some?
    ensures var reports := ReportsAt(lib, validation, e, Collect(e));
            && (forall r :: r in reports ==> Writable(r.value))
            && var simplified := Infer(ctx, PutAll(e, reports));
               simplified.Some? && IsConvertibleTo(ctx.hierarchy, simplified.value, Infer(ctx, e).value)
  {
    forall p | p in Collect(e) ensures At(e, p).Some? { CollectedExist(e, p); }
    assert Collect(e)[..|Collect(e)|] == Collect(e);
    ReportsAreFaithful(lib, validation, e, |Collect(e)|);
    PutAllNarrows(lib, ctx, validation, e, ReportsAt(lib, validation, e, Collect(e)));
  }
}
