/** Small shared datatypes and sequence functions. */
module Common {
  datatype Option<+T> = None | Some(value: T)

  /** The elements satisfying f, in order. */
  function Filter<T(!new)>(f: T -> bool, s: seq<T>): (r: seq<T>)
    ensures forall x :: x in r <==> x in s && f(x)
    ensures |r| <= |s|
  {
    if |s| == 0 then []
    else
      assert s == [s[0]] + s[1..];
      (if f(s[0]) then [s[0]] else []) + Filter(f, s[1..])
  }

  lemma {:induction false} FilterDrops<T(!new)>(f: T -> bool, s: seq<T>, x: T)
    requires x in s && !f(x)
    ensures |Filter(f, s)| < |s|
    decreases |s|
  {
    if s[0] != x { FilterDrops(f, s[1..], x); }
  }

  lemma {:induction false} FilterKeepsTwo<T(!new)>(f: T -> bool, s: seq<T>, i: nat, j: nat)
    requires i < j < |s| && f(s[i]) && f(s[j])
    ensures |Filter(f, s)| >= 2
    decreases |s|
  {
    if i == 0 {
      assert s[j] == s[1..][j - 1];
      assert s[j] in Filter(f, s[1..]);
    } else {
      FilterKeepsTwo(f, s[1..], i - 1, j - 1);
    }
  }

  function Elements<T>(s: seq<T>): set<T> { set x | x in s }

  ghost predicate Distinct<T>(s: seq<T>) {
    forall i, j :: 0 <= i < j < |s| ==> s[i] != s[j]
  }

  /** The elements of a list once each, by first occurrence, as building a set from it does. */
  function Once<T(==, !new)>(s: seq<T>): (r: seq<T>)
    ensures Distinct(r) && forall x :: x in r <==> x in s
  {
    if |s| == 0 then []
    else
      var n := |s| - 1;
      assert s == s[..n] + [s[n]];
      var r := Once(s[..n]);
      if s[n] in s[..n] then r else r + [s[n]]
  }

  lemma {:induction false} FilterIsDistinct<T(!new)>(f: T -> bool, s: seq<T>)
    requires Distinct(s)
    ensures Distinct(Filter(f, s))
    decreases |s|
  {
    if |s| > 0 {
      FilterIsDistinct(f, s[1..]);
      assert s[0] !in s[1..];
    }
  }

  lemma SplitLast<T>(s: seq<T>)
    requires |s| > 0
    ensures s == s[..|s| - 1] + [s[|s| - 1]]
  {}

  lemma TakeOneMore<T>(s: seq<T>, i: nat)
    requires i < |s|
    ensures s[..i + 1] == s[..i] + [s[i]]
  {}

  lemma {:induction false} ElementsOfDistinct<T>(s: seq<T>)
    ensures |Elements(s)| <= |s|
    ensures |Elements(s)| == |s| <==> Distinct(s)
    decreases |s|
  {
    if |s| > 0 {
      var n := |s| - 1;
      ElementsOfDistinct(s[..n]);
      SplitLast(s);
      assert Elements(s) == Elements(s[..n]) + {s[n]};
      if s[n] in s[..n] {
        assert Elements(s) == Elements(s[..n]);
        var i :| 0 <= i < n && s[..n][i] == s[n];
        assert s[i] == s[n];
      } else {
        assert s[n] !in Elements(s[..n]);
        forall i | 0 <= i < n ensures s[i] != s[n] { assert s[i] == s[..n][i]; }
        assert Distinct(s) <==> Distinct(s[..n]) by {
          assert forall i :: 0 <= i < n ==> s[..n][i] == s[i];
        }
      }
    }
  }

  lemma ConcatenationIsAssociative<T>(a: seq<T>, b: seq<T>, c: seq<T>)
    ensures (a + b) + c == a + (b + c)
  {}
}
