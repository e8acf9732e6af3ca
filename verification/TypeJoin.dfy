/**
 * The common type of the elements of a collection literal. The algorithm compares
 * hierarchy stacks level by level; the theorem is that it computes a least upper bound
 * in the conversion order.
 */
module TypeJoin {
  import opened Common
  import opened ValueTypes

  /** From the primitive root (level 0) down to t itself. */
  function Stack(h: Hierarchy, t: ValueType): (s: seq<ValueType>)
    requires Rooted(h, t)
    ensures |s| > 0 && s[|s| - 1] == t && !s[0].AtomicType?
    ensures forall i :: 1 <= i < |s| ==> s[i].AtomicType?
    decreases Height(h, t)
  {
    if t.AtomicType? then Stack(h, GetSupertype(h, t).value) + [t] else [t]
  }

  ghost predicate AllRooted(h: Hierarchy, types: seq<ValueType>) {
    forall t :: t in types ==> Rooted(h, t)
  }

  // ---------------------------------------------------------------------------
  // The two picking loops, as functions and as the loops they are
  // ---------------------------------------------------------------------------

  /** One round of the primitive loop: keep, widen, or give up. */
  function Widen(h: Hierarchy, result: ValueType, current: ValueType): Option<ValueType> {
    if IsConvertibleTo(h, current, result) then Some(result)
    else if IsConvertibleTo(h, result, current) then Some(current)
    else None
  }

  function CommonPrimitive(h: Hierarchy, types: seq<ValueType>): Option<ValueType>
    requires |types| > 0
  {
    if |types| == 1 then Some(types[0])
    else
      match CommonPrimitive(h, types[..|types| - 1])
      case None => None
      case Some(r) => Widen(h, r, types[|types| - 1])
  }

  lemma {:induction false} CommonPrimitiveFails(h: Hierarchy, types: seq<ValueType>, k: nat)
    requires 0 < k <= |types| && CommonPrimitive(h, types[..k]).None?
    ensures CommonPrimitive(h, types).None?
    decreases |types|
  {
    if k < |types| {
      assert types[..|types| - 1][..k] == types[..k];
      CommonPrimitiveFails(h, types[..|types| - 1], k);
    } else {
      assert types[..k] == types;
    }
  }

  method PickCommonPrimitive(h: Hierarchy, types: seq<ValueType>) returns (r: Option<ValueType>)
    requires |types| > 0
    ensures r == CommonPrimitive(h, types)
  {
    var resultingType := types[0];
    var i := 1;
    while i < |types|
      invariant 1 <= i <= |types|
      invariant CommonPrimitive(h, types[..i]) == Some(resultingType)
    {
      var currentType := types[i];
      assert types[..i + 1][..i] == types[..i];
      i := i + 1;
      if IsConvertibleTo(h, currentType, resultingType) { continue; }
      if IsConvertibleTo(h, resultingType, currentType) {
        resultingType := currentType;
        continue;
      }
      CommonPrimitiveFails(h, types, i);
      return None;
    }
    assert types[..i] == types;
    return Some(resultingType);
  }

  /** Every stack has this level and they agree on it. */
  predicate Agree(stacks: seq<seq<ValueType>>, level: nat) {
    && |stacks| > 0
    && (forall k :: 0 <= k < |stacks| ==> level < |stacks[k]|)
    && (forall k :: 0 <= k < |stacks| ==> stacks[k][level] == stacks[0][level])
  }

  /** How many levels from level 1 on all stacks agree, without interruption. */
  function CommonDepth(stacks: seq<seq<ValueType>>, level: nat): (n: nat)
    requires |stacks| > 0
    ensures forall l :: level <= l < level + n ==> Agree(stacks, l)
    ensures !Agree(stacks, level + n)
    decreases |stacks[0]| - level
  {
    if Agree(stacks, level) then 1 + CommonDepth(stacks, level + 1) else 0
  }

  function CommonAtomic(stacks: seq<seq<ValueType>>): Option<ValueType>
    requires |stacks| > 0
  {
    var n := CommonDepth(stacks, 1);
    assert n > 0 ==> Agree(stacks, n);
    if n == 0 then None else Some(stacks[0][n])
  }

  method AreAllTypesEqual(types: seq<ValueType>) returns (b: bool)
    requires |types| > 0
    ensures b <==> forall k :: 0 <= k < |types| ==> types[k] == types[0]
  {
    for i := 1 to |types|
      invariant forall k :: 0 <= k < i ==> types[k] == types[0]
    {
      if types[i - 1] != types[i] { return false; }
    }
    return true;
  }

  method MinimumLength(stacks: seq<seq<ValueType>>) returns (m: nat)
    requires |stacks| > 0
    ensures forall k :: 0 <= k < |stacks| ==> m <= |stacks[k]|
    ensures exists k :: 0 <= k < |stacks| && m == |stacks[k]|
  {
    m := |stacks[0]|;
    for i := 1 to |stacks|
      invariant forall k :: 0 <= k < i ==> m <= |stacks[k]|
      invariant exists k :: 0 <= k < i && m == |stacks[k]|
    {
      if |stacks[i]| < m { m := |stacks[i]|; }
    }
  }

  method PickCommonAtomic(stacks: seq<seq<ValueType>>) returns (r: Option<ValueType>)
    requires |stacks| > 0 && forall k :: 0 <= k < |stacks| ==> |stacks[k]| > 0
    ensures r == CommonAtomic(stacks)
  {
    var minimumStackLength := MinimumLength(stacks);
    r := None;
    var stackLevel := 1;
    while stackLevel < minimumStackLength
      invariant 1 <= stackLevel <= minimumStackLength
      invariant CommonDepth(stacks, 1) == stackLevel - 1 + CommonDepth(stacks, stackLevel)
      invariant r == if stackLevel == 1 then None else Some(stacks[0][stackLevel - 1])
    {
      var typesOfCurrentLevel := seq(|stacks|, k requires 0 <= k < |stacks| => stacks[k][stackLevel]);
      var allEqual := AreAllTypesEqual(typesOfCurrentLevel);
      assert allEqual <==> Agree(stacks, stackLevel) by {
        assert forall k :: 0 <= k < |stacks| ==> typesOfCurrentLevel[k] == stacks[k][stackLevel];
      }
      if !allEqual { return; }
      r := Some(typesOfCurrentLevel[0]);
      stackLevel := stackLevel + 1;
    }
    assert !Agree(stacks, stackLevel);
  }

  function Stacks(h: Hierarchy, types: seq<ValueType>): (s: seq<seq<ValueType>>)
    requires AllRooted(h, types)
    ensures |s| == |types| && forall i :: 0 <= i < |types| ==> s[i] == Stack(h, types[i])
  {
    seq(|types|, i requires 0 <= i < |types| => Stack(h, types[i]))
  }

  function Roots(stacks: seq<seq<ValueType>>): (r: seq<ValueType>)
    requires forall k :: 0 <= k < |stacks| ==> |stacks[k]| > 0
    ensures |r| == |stacks| && forall i :: 0 <= i < |stacks| ==> r[i] == stacks[i][0]
  {
    seq(|stacks|, i requires 0 <= i < |stacks| => stacks[i][0])
  }

  /** The element type inferred for a non-empty collection with these element types. */
  function Join(h: Hierarchy, types: seq<ValueType>): Option<ValueType>
    requires |types| > 0 && AllRooted(h, types)
  {
    var stacks := Stacks(h, types);
    if |stacks| == 1 then Some(stacks[0][|stacks[0]| - 1])
    else
      match CommonPrimitive(h, Roots(stacks))
      case None => None
      case Some(primitive) =>
        match CommonAtomic(stacks)
        case None => Some(primitive)
        case Some(atomic) => Some(atomic)
  }

  // ---------------------------------------------------------------------------
  // Join is the least upper bound
  // ---------------------------------------------------------------------------

  ghost predicate UpperBound(h: Hierarchy, types: seq<ValueType>, u: ValueType) {
    forall t :: t in types ==> IsConvertibleTo(h, t, u)
  }

  ghost predicate LeastUpperBound(h: Hierarchy, types: seq<ValueType>, u: ValueType) {
    && UpperBound(h, types, u)
    && forall w :: UpperBound(h, types, w) ==> IsConvertibleTo(h, u, w)
  }

  /** What a rooted type converts to: its own ancestors, and whatever its root converts to. */
  lemma {:induction false} ConversionByStack(h: Hierarchy, t: ValueType, u: ValueType)
    requires Rooted(h, t)
    ensures IsConvertibleTo(h, t, u) <==> u in Stack(h, t) || IsConvertibleTo(h, Stack(h, t)[0], u)
    decreases Height(h, t)
  {
    if t.AtomicType? {
      ConversionByStack(h, GetSupertype(h, t).value, u);
    }
  }

  lemma {:induction false} StackOfAncestor(h: Hierarchy, t: ValueType, level: nat)
    requires Rooted(h, t) && level < |Stack(h, t)|
    ensures Rooted(h, Stack(h, t)[level])
    ensures Stack(h, Stack(h, t)[level]) == Stack(h, t)[..level + 1]
    decreases Height(h, t)
  {
    if level + 1 < |Stack(h, t)| {
      StackOfAncestor(h, GetSupertype(h, t).value, level);
    } else {
      assert Stack(h, t)[..level + 1] == Stack(h, t);
    }
  }

  /** Two non-atomic types with a common upper bound are comparable, so widening never misses one. */
  lemma {:induction false} CommonPrimitiveIsLeast(h: Hierarchy, types: seq<ValueType>)
    requires |types| > 0 && forall t :: t in types ==> !t.AtomicType?
    ensures CommonPrimitive(h, types).Some? ==>
              !CommonPrimitive(h, types).value.AtomicType? && LeastUpperBound(h, types, CommonPrimitive(h, types).value)
    ensures CommonPrimitive(h, types).None? ==> forall w :: !UpperBound(h, types, w)
    decreases |types|
  {
    var n := |types| - 1;
    assert types == types[..n] + [types[n]];
    if n > 0 {
      CommonPrimitiveIsLeast(h, types[..n]);
      var c := CommonPrimitive(h, types[..n]);
      forall w | UpperBound(h, types, w) ensures UpperBound(h, types[..n], w) && IsConvertibleTo(h, types[n], w) {}
      if c.Some? && Widen(h, c.value, types[n]) == Some(types[n]) {
        forall t | t in types[..n] ensures IsConvertibleTo(h, t, types[n]) {
          if IsConvertibleTo(h, types[n], c.value) {
            ConversionIsAntisymmetric(h, types[n], c.value);
          } else {
            ConversionIsTransitive(h, t, c.value, types[n]);
          }
        }
      }
    } else {
      assert types[n] in types;
    }
  }

  lemma AtomicUpperBoundOnStack(h: Hierarchy, t: ValueType, w: ValueType)
    requires Rooted(h, t) && IsConvertibleTo(h, t, w) && w.AtomicType?
    ensures Rooted(h, w) && Stack(h, w) <= Stack(h, t)
  {
    ConversionByStack(h, t, w);
    var l :| 0 <= l < |Stack(h, t)| && Stack(h, t)[l] == w;
    StackOfAncestor(h, t, l);
  }

  lemma CommonPrefixAgrees(stacks: seq<seq<ValueType>>, prefix: seq<ValueType>)
    requires |stacks| > 0 && forall k :: 0 <= k < |stacks| ==> prefix <= stacks[k]
    ensures forall l :: 0 <= l < |prefix| ==> Agree(stacks, l) && stacks[0][l] == prefix[l]
  {
    forall l, k | 0 <= l < |prefix| && 0 <= k < |stacks| ensures l < |stacks[k]| && stacks[k][l] == prefix[l] {
      assert prefix <= stacks[k];
    }
  }

  /** A user-defined upper bound sits at one and the same level of every stack, and all agree up to it. */
  lemma AtomicUpperBoundIsShared(h: Hierarchy, types: seq<ValueType>, w: ValueType)
    requires |types| > 0 && AllRooted(h, types) && UpperBound(h, types, w) && w.AtomicType?
    ensures Rooted(h, w)
    ensures forall l :: 0 <= l < |Stack(h, w)| ==>
              Agree(Stacks(h, types), l) && Stacks(h, types)[0][l] == Stack(h, w)[l]
  {
    assert types[0] in types;
    AtomicUpperBoundOnStack(h, types[0], w);
    var stacks := Stacks(h, types);
    forall i | 0 <= i < |types| ensures Stack(h, w) <= stacks[i] {
      assert types[i] in types;
      AtomicUpperBoundOnStack(h, types[i], w);
    }
    CommonPrefixAgrees(stacks, Stack(h, w));
  }

  lemma RootsArePrimitive(h: Hierarchy, types: seq<ValueType>)
    requires AllRooted(h, types)
    ensures forall r :: r in Roots(Stacks(h, types)) ==> !r.AtomicType?
  {
    var roots := Roots(Stacks(h, types));
    forall r | r in roots ensures !r.AtomicType? {
      var i :| 0 <= i < |roots| && roots[i] == r;
      assert types[i] in types;
    }
  }

  lemma UpperBoundOfRoots(h: Hierarchy, types: seq<ValueType>, w: ValueType)
    requires AllRooted(h, types) && !w.AtomicType?
    ensures UpperBound(h, types, w) <==> UpperBound(h, Roots(Stacks(h, types)), w)
  {
    var roots := Roots(Stacks(h, types));
    forall i | 0 <= i < |types| ensures IsConvertibleTo(h, types[i], w) <==> IsConvertibleTo(h, roots[i], w) {
      assert types[i] in types;
      ConversionByStack(h, types[i], w);
    }
    if UpperBound(h, types, w) {
      forall r | r in roots ensures IsConvertibleTo(h, r, w) {
        var i :| 0 <= i < |roots| && roots[i] == r;
        assert types[i] in types;
      }
    }
    if UpperBound(h, roots, w) {
      forall t | t in types ensures IsConvertibleTo(h, t, w) {
        var i :| 0 <= i < |types| && types[i] == t;
        assert roots[i] in roots;
      }
    }
  }

  lemma AtomicJoinStack(h: Hierarchy, types: seq<ValueType>, c: ValueType)
    requires |types| > 0 && AllRooted(h, types) && CommonAtomic(Stacks(h, types)) == Some(c)
    ensures types[0] in types && Rooted(h, c) && Stack(h, c) <= Stack(h, types[0])
    ensures |Stack(h, c)| == CommonDepth(Stacks(h, types), 1) + 1
    ensures UpperBound(h, types, c)
  {
    var stacks := Stacks(h, types);
    var n := CommonDepth(stacks, 1);
    assert Agree(stacks, n) && c == stacks[0][n];
    assert types[0] in types;
    StackOfAncestor(h, types[0], n);
    forall t | t in types ensures IsConvertibleTo(h, t, c) {
      var i :| 0 <= i < |types| && types[i] == t;
      assert stacks[i][n] == c;
      ConversionByStack(h, t, c);
    }
  }

  lemma AtomicUpperBoundInJoinStack(h: Hierarchy, types: seq<ValueType>, c: ValueType, w: ValueType)
    requires |types| > 0 && AllRooted(h, types) && CommonAtomic(Stacks(h, types)) == Some(c)
    requires UpperBound(h, types, w) && w.AtomicType?
    ensures Rooted(h, c) && w in Stack(h, c)
  {
    AtomicJoinStack(h, types, c);
    AtomicUpperBoundIsShared(h, types, w);
    var m := |Stack(h, w)| - 1;
    assert Stacks(h, types)[0][m] == w;
    assert m <= CommonDepth(Stacks(h, types), 1);
    assert Stack(h, c)[m] == Stack(h, types[0])[m];
  }

  lemma AtomicJoinIsLeast(h: Hierarchy, types: seq<ValueType>, c: ValueType)
    requires |types| > 0 && AllRooted(h, types) && CommonAtomic(Stacks(h, types)) == Some(c)
    ensures LeastUpperBound(h, types, c) && Rooted(h, c)
  {
    AtomicJoinStack(h, types, c);
    forall w | UpperBound(h, types, w) ensures IsConvertibleTo(h, c, w) {
      ConversionByStack(h, c, w);
      if w.AtomicType? {
        AtomicUpperBoundInJoinStack(h, types, c, w);
      } else {
        ConversionByStack(h, types[0], w);
        assert Stack(h, c)[0] == Stack(h, types[0])[0];
      }
    }
  }

  lemma AtomicJoinHasPrimitive(h: Hierarchy, types: seq<ValueType>, c: ValueType)
    requires |types| > 0 && AllRooted(h, types) && CommonAtomic(Stacks(h, types)) == Some(c)
    ensures CommonPrimitive(h, Roots(Stacks(h, types))).Some?
  {
    AtomicJoinStack(h, types, c);
    var root := Stack(h, c)[0];
    forall t | t in types ensures IsConvertibleTo(h, t, root) {
      ConversionByStack(h, c, root);
      ConversionIsTransitive(h, t, c, root);
    }
    UpperBoundOfRoots(h, types, root);
    RootsArePrimitive(h, types);
    CommonPrimitiveIsLeast(h, Roots(Stacks(h, types)));
  }

  lemma PrimitiveJoinIsLeast(h: Hierarchy, types: seq<ValueType>)
    requires |types| > 0 && AllRooted(h, types) && CommonAtomic(Stacks(h, types)).None?
    ensures match CommonPrimitive(h, Roots(Stacks(h, types)))
            case Some(p) => LeastUpperBound(h, types, p) && !p.AtomicType?
            case None => forall w :: !UpperBound(h, types, w)
  {
    var stacks := Stacks(h, types);
    var roots := Roots(stacks);
    RootsArePrimitive(h, types);
    CommonPrimitiveIsLeast(h, roots);
    forall w | UpperBound(h, types, w) ensures !w.AtomicType? && UpperBound(h, roots, w) {
      if w.AtomicType? {
        AtomicUpperBoundIsShared(h, types, w);
        assert false;
      }
      UpperBoundOfRoots(h, types, w);
    }
    var p := CommonPrimitive(h, roots);
    if p.Some? { UpperBoundOfRoots(h, types, p.value); }
  }

  /** Inference finds the least upper bound, and fails exactly when there is no upper bound. */
  lemma JoinIsLeastUpperBound(h: Hierarchy, types: seq<ValueType>)
    requires |types| > 0 && AllRooted(h, types)
    ensures Join(h, types).Some? ==> LeastUpperBound(h, types, Join(h, types).value) && Rooted(h, Join(h, types).value)
    ensures Join(h, types).None? <==> forall w :: !UpperBound(h, types, w)
  {
    assert types[0] in types;
    if |types| == 1 {
      assert Join(h, types) == Some(types[0]);
    } else if CommonAtomic(Stacks(h, types)).Some? {
      AtomicJoinIsLeast(h, types, CommonAtomic(Stacks(h, types)).value);
      AtomicJoinHasPrimitive(h, types, CommonAtomic(Stacks(h, types)).value);
    } else {
      PrimitiveJoinIsLeast(h, types);
    }
  }

  /** The inferred element type depends only on which types occur, not on their order or number. */
  lemma JoinIgnoresOrder(h: Hierarchy, types: seq<ValueType>, other: seq<ValueType>)
    requires |types| > 0 && |other| > 0 && AllRooted(h, types)
    requires forall t :: t in types <==> t in other
    ensures Join(h, types) == Join(h, other)
  {
    JoinIsLeastUpperBound(h, types);
    JoinIsLeastUpperBound(h, other);
    assert forall w :: UpperBound(h, types, w) <==> UpperBound(h, other, w);
    var a, b := Join(h, types), Join(h, other);
    if a.Some? && b.Some? {
      ConversionIsAntisymmetric(h, a.value, b.value);
    }
  }
}
