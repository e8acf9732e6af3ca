/**
 * The value types of the language, their conversions, and the values they describe.
 * Equality of value types in the language (singletons for primitives, definition
 * identity for user-defined types, structure for collections) is `==` here.
 */
module ValueTypes {
  import opened Common

  /** Identity of a value type definition in the source text of a model. */
  type DefinitionId = nat

  datatype ValueType =
    | BooleanType | DecimalType | IntegerType | TextType
    | RegexType | CellRangeType | ConstraintType | AssignmentType | TransformType
    | EmptyCollectionType
    | CollectionType(elementType: ValueType)
    | AtomicType(definition: DefinitionId)

  /** The `oftype` clause of each definition; a definition without entry has none that resolves. */
  type Hierarchy = map<DefinitionId, ValueType>

  // ---------------------------------------------------------------------------
  // Supertype chains
  // ---------------------------------------------------------------------------

  function DeclaredSupertype(h: Hierarchy, t: ValueType): Option<ValueType> {
    if t.AtomicType? && t.definition in h then Some(h[t.definition]) else None
  }

  function Unvisited(h: Hierarchy, visited: seq<ValueType>): set<DefinitionId> {
    set d | d in h && AtomicType(d) !in visited
  }

  /** The recursive cycle check; `visited` lists the types already walked through. */
  function HasSupertypeCycle(h: Hierarchy, t: ValueType, visited: seq<ValueType>): bool
    decreases Unvisited(h, visited)
  {
    if t in visited then true
    else
      match DeclaredSupertype(h, t)
      case None => false
      case Some(s) =>
        assert t.definition in Unvisited(h, visited) && t.definition !in Unvisited(h, visited + [t]);
        assert Unvisited(h, visited + [t]) <= Unvisited(h, visited);
        HasSupertypeCycle(h, s, visited + [t])
  }

  /** The type reached after following n `oftype` clauses, if there are that many. */
  function Ancestor(h: Hierarchy, t: ValueType, n: nat): Option<ValueType>
    decreases n
  {
    if n == 0 then Some(t)
    else
      match DeclaredSupertype(h, t)
      case None => None
      case Some(s) => Ancestor(h, s, n - 1)
  }

  ghost predicate Endless(h: Hierarchy, t: ValueType) {
    forall n: nat :: Ancestor(h, t, n).Some?
  }

  lemma {:induction false} AncestorComposes(h: Hierarchy, t: ValueType, m: nat, n: nat)
    ensures Ancestor(h, t, m + n)
         == match Ancestor(h, t, m) case None => None case Some(u) => Ancestor(h, u, n)
    decreases m
  {
    if m > 0 {
      match DeclaredSupertype(h, t) {
        case None =>
        case Some(s) => AncestorComposes(h, s, m - 1, n);
      }
    }
  }

  lemma {:induction false} ReturningChainIsEndless(h: Hierarchy, t: ValueType, k: nat, n: nat)
    requires k > 0 && Ancestor(h, t, k) == Some(t)
    ensures Ancestor(h, t, n).Some?
    decreases n
  {
    if n < k {
      AncestorComposes(h, t, n, k - n);
    } else {
      AncestorComposes(h, t, k, n - k);
      ReturningChainIsEndless(h, t, k, n - k);
    }
  }

  /** `visited` followed by `t` is the chain that starts at `start`. */
  ghost predicate WalkedTo(h: Hierarchy, start: ValueType, t: ValueType, visited: seq<ValueType>) {
    && Ancestor(h, start, |visited|) == Some(t)
    && forall i :: 0 <= i < |visited| ==> Ancestor(h, start, i) == Some(visited[i])
  }

  lemma {:induction false} CycleCheckOnWalk(h: Hierarchy, start: ValueType, t: ValueType, visited: seq<ValueType>)
    requires WalkedTo(h, start, t, visited)
    ensures HasSupertypeCycle(h, t, visited) <==> Endless(h, start)
    decreases Unvisited(h, visited)
  {
    if t in visited {
      var i :| 0 <= i < |visited| && visited[i] == t;
      var k := |visited| - i;
      AncestorComposes(h, start, i, k);
      forall n: nat ensures Ancestor(h, start, n).Some? {
        if n <= i {
          AncestorComposes(h, start, n, i - n);
        } else {
          AncestorComposes(h, start, i, n - i);
          ReturningChainIsEndless(h, t, k, n - i);
        }
      }
    } else {
      AncestorComposes(h, start, |visited|, 1);
      match DeclaredSupertype(h, t) {
        case None =>
          assert Ancestor(h, t, 1).None?;
          assert Ancestor(h, start, |visited| + 1).None?;
        case Some(s) =>
          assert Ancestor(h, t, 1) == Some(s) by { assert Ancestor(h, s, 0) == Some(s); }
          assert t.definition in Unvisited(h, visited) && t.definition !in Unvisited(h, visited + [t]);
          assert Unvisited(h, visited + [t]) <= Unvisited(h, visited);
          CycleCheckOnWalk(h, start, s, visited + [t]);
      }
    }
  }

  /** The check answers true exactly when the supertype chain never ends. */
  lemma CycleCheckIsExact(h: Hierarchy, t: ValueType)
    ensures HasSupertypeCycle(h, t, []) <==> Endless(h, t)
  {
    CycleCheckOnWalk(h, t, t, []);
  }

  // The number of `oftype` steps to the end of a chain that ends.

  ghost predicate EndsAfter(h: Hierarchy, t: ValueType, n: nat) {
    Ancestor(h, t, n).Some? && Ancestor(h, t, n + 1).None?
  }

  ghost function Height(h: Hierarchy, t: ValueType): nat {
    if exists n: nat :: EndsAfter(h, t, n) then
      var n: nat :| EndsAfter(h, t, n); n
    else 0
  }

  lemma {:induction false} ChainEnd(h: Hierarchy, t: ValueType, n: nat) returns (k: nat)
    requires Ancestor(h, t, n).None?
    ensures k < n && EndsAfter(h, t, k)
    decreases n
  {
    if Ancestor(h, t, n - 1).None? {
      k := ChainEnd(h, t, n - 1);
    } else {
      k := n - 1;
    }
  }

  lemma ChainEndIsUnique(h: Hierarchy, t: ValueType, m: nat, n: nat)
    requires EndsAfter(h, t, m) && EndsAfter(h, t, n)
    ensures m == n
  {
    if m < n {
      AncestorComposes(h, t, m + 1, n - m - 1);
    } else if n < m {
      AncestorComposes(h, t, n + 1, m - n - 1);
    }
  }

  lemma SupertypeIsLower(h: Hierarchy, t: ValueType, s: ValueType)
    requires !HasSupertypeCycle(h, t, []) && DeclaredSupertype(h, t) == Some(s)
    ensures Height(h, s) < Height(h, t)
  {
    CycleCheckIsExact(h, t);
    var n: nat :| Ancestor(h, t, n).None?;
    var k := ChainEnd(h, t, n);
    assert Ancestor(h, t, k + 1) == Ancestor(h, s, k);
    assert k > 0;
    assert Ancestor(h, t, k) == Ancestor(h, s, k - 1);
    assert EndsAfter(h, s, k - 1);
    ChainEndIsUnique(h, t, k, Height(h, t));
    ChainEndIsUnique(h, s, k - 1, Height(h, s));
  }

  /** The supertype as callers see it: none for a type on an endless chain. */
  function GetSupertype(h: Hierarchy, t: ValueType): (s: Option<ValueType>)
    ensures s.Some? ==> t.AtomicType? && Height(h, s.value) < Height(h, t)
  {
    if HasSupertypeCycle(h, t, []) then None
    else
      var s := DeclaredSupertype(h, t);
      assert s.Some? ==> Height(h, s.value) < Height(h, t) by {
        if s.Some? { SupertypeIsLower(h, t, s.value); }
      }
      s
  }

  /** The chain of t ends in a primitive (or collection) type: neither cyclic nor unresolved. */
  predicate Rooted(h: Hierarchy, t: ValueType)
    decreases Height(h, t)
  {
    t.AtomicType? ==>
      var s := GetSupertype(h, t);
      s.Some? && Rooted(h, s.value)
  }

  predicate PrimitiveAfter(h: Hierarchy, t: ValueType, n: nat) {
    var a := Ancestor(h, t, n);
    a.Some? && !a.value.AtomicType?
  }

  lemma {:induction false} RootedReachesPrimitive(h: Hierarchy, t: ValueType) returns (n: nat)
    requires Rooted(h, t)
    ensures PrimitiveAfter(h, t, n)
    decreases Height(h, t)
  {
    if t.AtomicType? {
      n := RootedReachesPrimitive(h, GetSupertype(h, t).value);
      n := n + 1;
    } else {
      n := 0;
    }
  }

  lemma {:induction false} ReachingPrimitiveIsRooted(h: Hierarchy, t: ValueType, n: nat)
    requires PrimitiveAfter(h, t, n)
    ensures Rooted(h, t)
    decreases n
  {
    if t.AtomicType? {
      ReachingPrimitiveIsRooted(h, DeclaredSupertype(h, t).value, n - 1);
      CycleCheckIsExact(h, t);
      AncestorComposes(h, t, n, 1);
      assert Ancestor(h, Ancestor(h, t, n).value, 1).None?;
      assert Ancestor(h, t, n + 1).None?;
    }
  }

  /** Endless chains and unresolved supertypes are the only ways not to reach a primitive. */
  lemma RootedIffChainReachesPrimitive(h: Hierarchy, t: ValueType)
    ensures Rooted(h, t) <==> exists n: nat :: PrimitiveAfter(h, t, n)
  {
    if Rooted(h, t) {
      var n := RootedReachesPrimitive(h, t);
    }
    if n: nat :| PrimitiveAfter(h, t, n) {
      ReachingPrimitiveIsRooted(h, t, n);
    }
  }

  // ---------------------------------------------------------------------------
  // Conversion
  // ---------------------------------------------------------------------------

  function IsConvertibleTo(h: Hierarchy, t: ValueType, target: ValueType): bool
    decreases Height(h, t)
  {
    if target == t then true
    else
      match t
      case IntegerType => target.DecimalType?
      case EmptyCollectionType => target.CollectionType?
      case AtomicType(_) =>
        (match GetSupertype(h, t)
         case None => false
         case Some(s) => IsConvertibleTo(h, s, target))
      case _ => false
  }

  lemma {:induction false} ConversionIsTransitive(h: Hierarchy, t: ValueType, u: ValueType, w: ValueType)
    requires IsConvertibleTo(h, t, u) && IsConvertibleTo(h, u, w)
    ensures IsConvertibleTo(h, t, w)
    decreases Height(h, t)
  {
    if u != t && t.AtomicType? {
      ConversionIsTransitive(h, GetSupertype(h, t).value, u, w);
    }
  }

  /** Conversion out of a user-defined type goes strictly down in height. */
  lemma {:induction false} ConversionLowersHeight(h: Hierarchy, t: ValueType, u: ValueType)
    requires IsConvertibleTo(h, t, u) && t != u && t.AtomicType?
    ensures Height(h, u) < Height(h, t) || !u.AtomicType?
    decreases Height(h, t)
  {
    var s := GetSupertype(h, t).value;
    if s != u && s.AtomicType? {
      ConversionLowersHeight(h, s, u);
    }
  }

  lemma ConversionIsAntisymmetric(h: Hierarchy, t: ValueType, u: ValueType)
    requires IsConvertibleTo(h, t, u) && IsConvertibleTo(h, u, t)
    ensures t == u
  {
    if t != u && t.AtomicType? {
      ConversionLowersHeight(h, t, u);
      if u.AtomicType? { ConversionLowersHeight(h, u, t); }
    } else if t != u && u.AtomicType? {
      ConversionLowersHeight(h, u, t);
    }
  }

  /** The conversions that are not a matter of `oftype`. */
  predicate ConvertsDirectly(t: ValueType, u: ValueType) {
    t == u || (t.IntegerType? && u.DecimalType?) || (t.EmptyCollectionType? && u.CollectionType?)
  }

  ghost predicate ConvertsAfter(h: Hierarchy, t: ValueType, u: ValueType, n: nat) {
    Ancestor(h, t, n).Some? && ConvertsDirectly(Ancestor(h, t, n).value, u)
  }

  lemma ConvertsHereOrHigher(h: Hierarchy, t: ValueType, u: ValueType)
    ensures (exists n: nat :: ConvertsAfter(h, t, u, n)) <==>
            || ConvertsDirectly(t, u)
            || (DeclaredSupertype(h, t).Some? && exists n: nat :: ConvertsAfter(h, DeclaredSupertype(h, t).value, u, n))
  {
    if ConvertsDirectly(t, u) { assert ConvertsAfter(h, t, u, 0); }
    if DeclaredSupertype(h, t).Some? {
      var s := DeclaredSupertype(h, t).value;
      if n: nat :| ConvertsAfter(h, s, u, n) { assert ConvertsAfter(h, t, u, n + 1); }
    }
    if n: nat :| ConvertsAfter(h, t, u, n) && !ConvertsDirectly(t, u) {
      assert n > 0 && ConvertsAfter(h, DeclaredSupertype(h, t).value, u, n - 1);
    }
  }

  /** A type converts exactly to the types on its chain, and to what the end of the chain converts to directly. */
  lemma {:induction false} ConversionIff(h: Hierarchy, t: ValueType, u: ValueType)
    requires Rooted(h, t)
    ensures IsConvertibleTo(h, t, u) <==> exists n: nat :: ConvertsAfter(h, t, u, n)
    decreases Height(h, t)
  {
    ConvertsHereOrHigher(h, t, u);
    if t.AtomicType? { ConversionIff(h, GetSupertype(h, t).value, u); }
  }

  /** A definition is on a chain that ends exactly if its `oftype` clause leads to one; then it converts to that. */
  lemma DefinitionsFollowTheirClause(h: Hierarchy, d: DefinitionId)
    ensures Rooted(h, AtomicType(d)) <==> d in h && Rooted(h, h[d])
    ensures Rooted(h, AtomicType(d)) ==>
              GetSupertype(h, AtomicType(d)) == Some(h[d]) && IsConvertibleTo(h, AtomicType(d), h[d])
  {
    if d in h && Rooted(h, h[d]) {
      var n := RootedReachesPrimitive(h, h[d]);
      assert PrimitiveAfter(h, AtomicType(d), n + 1);
      ReachingPrimitiveIsRooted(h, AtomicType(d), n + 1);
    }
  }

  // ---------------------------------------------------------------------------
  // Values
  // ---------------------------------------------------------------------------

  /** Run-time values. Numbers are exact: an integer is a number equal to its floor. */
  datatype Value =
    | BoolV(b: bool)
    | NumV(n: real)
    | TextV(s: string)
    | RegexV(pattern: string)
    | CellRangeV(range: string)
    | ConstraintV(constraint: nat)
    | AssignmentV(assignment: nat)
    | TransformV(transform: nat)
    | CollectionV(elements: seq<Value>)

  predicate IsInteger(n: real) { n == n.Floor as real }

  function IsRepresentation(h: Hierarchy, t: ValueType, v: Value): bool
    decreases v, Height(h, t)
  {
    match t
    case BooleanType => v.BoolV?
    case DecimalType => v.NumV?
    case IntegerType => v.NumV? && IsInteger(v.n)
    case TextType => v.TextV?
    case RegexType => v.RegexV?
    case CellRangeType => v.CellRangeV?
    case ConstraintType => v.ConstraintV?
    case AssignmentType => v.AssignmentV?
    case TransformType => v.TransformV?
    case EmptyCollectionType => v.CollectionV? && |v.elements| == 0
    case CollectionType(elem) => v.CollectionV? && forall e :: e in v.elements ==> IsRepresentation(h, elem, e)
    case AtomicType(_) =>
      (match GetSupertype(h, t)
       case None => false
       case Some(s) => IsRepresentation(h, s, v))
  }

  /** User-defined types have the representations of the type at the end of their chain. */
  lemma {:induction false} RepresentationIsThatOfTheRoot(h: Hierarchy, t: ValueType, v: Value, n: nat)
    requires Rooted(h, t) && PrimitiveAfter(h, t, n)
    ensures IsRepresentation(h, t, v) <==> IsRepresentation(h, Ancestor(h, t, n).value, v)
    decreases n
  {
    if n > 0 { RepresentationIsThatOfTheRoot(h, GetSupertype(h, t).value, v, n - 1); }
  }

  /** The types at the end of a chain that each kind of value represents. */
  lemma KindsOfValues(h: Hierarchy, t: ValueType, v: Value)
    requires !t.AtomicType?
    ensures IsRepresentation(h, t, v) <==>
              match v
              case BoolV(_) => t == BooleanType
              case NumV(n) => t == DecimalType || (t == IntegerType && IsInteger(n))
              case TextV(_) => t == TextType
              case RegexV(_) => t == RegexType
              case CellRangeV(_) => t == CellRangeType
              case ConstraintV(_) => t == ConstraintType
              case AssignmentV(_) => t == AssignmentType
              case TransformV(_) => t == TransformType
              case CollectionV(elements) =>
                || (t == EmptyCollectionType && elements == [])
                || (t.CollectionType? && forall e :: e in elements ==> IsRepresentation(h, t.elementType, e))
  {}

  lemma {:induction false} ConversionKeepsRepresentation(h: Hierarchy, t: ValueType, u: ValueType, v: Value)
    requires IsConvertibleTo(h, t, u) && IsRepresentation(h, t, v)
    ensures IsRepresentation(h, u, v)
    decreases Height(h, t)
  {
    if t != u && t.AtomicType? {
      ConversionKeepsRepresentation(h, GetSupertype(h, t).value, u, v);
    }
  }
}
