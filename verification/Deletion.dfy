/** Deleting several positions of a list one by one, and the text line deleter. */
module Deletion {
  import opened Common

  /** Removes one element at a start position, which counts from the end if it is negative. */
  function SpliceOne<T>(s: seq<T>, start: int): (r: seq<T>)
    ensures |s| > 0 && start < |s| ==> |r| == |s| - 1
    ensures start >= |s| ==> r == s
  {
    var i := if start < 0 then (if |s| + start < 0 then 0 else |s| + start) else start;
    if i < |s| then s[..i] + s[i + 1..] else s
  }

  /** A start position from the end counts back, and stops at the front; one past the end removes nothing. */
  lemma SpliceRemovesOne<T>(s: seq<T>, start: int, k: nat)
    requires |s| > 0 && k < |SpliceOne(s, start)|
    ensures var i := if start >= 0 then start else if -start <= |s| then |s| + start else 0;
            SpliceOne(s, start)[k] == s[if k < i then k else k + 1]
    ensures |SpliceOne(s, start)| == if start < |s| then |s| - 1 else |s|
  {}

  function SpliceAll<T>(s: seq<T>, positions: seq<int>): seq<T>
    decreases |positions|
  {
    if |positions| == 0 then s else SpliceAll(SpliceOne(s, positions[0]), positions[1..])
  }

  /** The elements at the other positions, in order. */
  function Without<T>(s: seq<T>, positions: set<int>): (r: seq<T>)
    ensures |r| <= |s|
  {
    if |s| == 0 then []
    else
      var n := |s| - 1;
      Without(s[..n], positions) + (if n in positions then [] else [s[n]])
  }

  ghost predicate Descending(s: seq<int>) {
    forall i, j :: 0 <= i < j < |s| ==> s[i] > s[j]
  }

  lemma {:induction false} WithoutKeepsTail<T>(s: seq<T>, positions: set<int>, m: nat)
    requires m <= |s| && forall i :: i in positions ==> i < m
    ensures Without(s, positions) == Without(s[..m], positions) + s[m..]
    decreases |s|
  {
    if m < |s| {
      var n := |s| - 1;
      WithoutKeepsTail(s[..n], positions, m);
      assert s[..n][..m] == s[..m] && s[..n][m..] + [s[n]] == s[m..];
    } else {
      assert s[..m] == s && s[m..] == [];
    }
  }

  lemma {:induction false} WithoutIgnores<T>(s: seq<T>, positions: set<int>, others: set<int>)
    requires forall i :: 0 <= i < |s| ==> (i in positions <==> i in others)
    ensures Without(s, positions) == Without(s, others)
    decreases |s|
  {
    if |s| > 0 { WithoutIgnores(s[..|s| - 1], positions, others); }
  }

  lemma WithoutLargest<T>(s: seq<T>, positions: set<int>, d: nat)
    requires d < |s| && d in positions && forall i :: i in positions ==> i <= d
    ensures Without(s, positions) == Without(SpliceOne(s, d), positions - {d})
  {
    var shorter, others := s[..d] + s[d + 1..], positions - {d};
    assert SpliceOne(s, d) == shorter;
    WithoutKeepsTail(s, positions, d + 1);
    assert Without(s[..d + 1], positions) == Without(s[..d], positions) by {
      assert s[..d + 1][..d] == s[..d];
    }
    WithoutIgnores(s[..d], positions, others);
    assert forall i :: i in others ==> i < d;
    WithoutKeepsTail(shorter, others, d);
    assert shorter[..d] == s[..d] && shorter[d..] == s[d + 1..];
  }

  /** Deleting from the back keeps the earlier positions stable, so all of them are hit. */
  lemma {:induction false} DescendingSplicesRemove<T>(s: seq<T>, positions: seq<int>)
    requires Descending(positions) && forall i :: 0 <= i < |positions| ==> 0 <= positions[i]
    ensures SpliceAll(s, positions) == Without(s, Elements(positions))
    decreases |positions|
  {
    if |positions| == 0 {
      WithoutKeepsTail(s, {}, 0);
      assert Elements(positions) == {} && s[0..] == s;
    } else {
      var d, rest := positions[0], positions[1..];
      assert positions == [d] + rest;
      assert Elements(positions) - {d} == Elements(rest) by {
        assert d !in rest;
      }
      if d < |s| {
        WithoutLargest(s, Elements(positions), d);
      } else {
        WithoutIgnores(s, Elements(positions), Elements(rest));
      }
      DescendingSplicesRemove(SpliceOne(s, d), rest);
    }
  }

  lemma {:induction false} SpliceAllComposes<T>(s: seq<T>, a: seq<int>, b: seq<int>)
    ensures SpliceAll(s, a + b) == SpliceAll(SpliceAll(s, a), b)
    decreases |a|
  {
    if |a| == 0 {
      assert a + b == b;
    } else {
      assert (a + b)[1..] == a[1..] + b;
      SpliceAllComposes(SpliceOne(s, a[0]), a[1..], b);
    }
  }

  /** A negative position always deletes something while there is something left. */
  lemma {:induction false} NegativeSplices<T>(s: seq<T>, positions: seq<int>)
    requires forall i :: 0 <= i < |positions| ==> positions[i] < 0
    ensures |SpliceAll(s, positions)| == if |positions| <= |s| then |s| - |positions| else 0
    decreases |positions|
  {
    if |positions| > 0 {
      NegativeSplices(SpliceOne(s, positions[0]), positions[1..]);
    }
  }

  lemma {:induction false} WithoutAll<T>(s: seq<T>, positions: set<int>)
    ensures |Without(s, positions)| == 0 <==> forall i :: 0 <= i < |s| ==> i in positions
    decreases |s|
  {
    if |s| > 0 { WithoutAll(s[..|s| - 1], positions); }
  }

  lemma {:induction false} WithoutCount<T>(s: seq<T>, positions: set<int>)
    ensures |Without(s, positions)| == |s| - |set i | 0 <= i < |s| && i in positions|
    decreases |s|
  {
    var hit := set i | 0 <= i < |s| && i in positions;
    if |s| > 0 {
      var n := |s| - 1;
      WithoutCount(s[..n], positions);
      var earlier := set i | 0 <= i < n && i in positions;
      assert earlier == set i | 0 <= i < |s[..n]| && i in positions;
      assert hit == if n in positions then earlier + {n} else earlier;
    } else {
      assert hit == {};
    }
  }

  lemma SubsetCount(a: set<int>, b: set<int>)
    requires a <= b
    ensures |a| <= |b| && (|a| == |b| ==> a == b)
  {
    assert b == a + (b - a);
    assert |b| == |a| + |b - a|;
  }

  // ---------------------------------------------------------------------------
  // Sorting and removing duplicates, as the library does
  // ---------------------------------------------------------------------------

  ghost predicate Ascending(s: seq<int>) {
    forall i, j :: 0 <= i < j < |s| ==> s[i] <= s[j]
  }

  function Insert(x: int, s: seq<int>): (r: seq<int>)
    ensures multiset(r) == multiset(s) + multiset{x}
  {
    if |s| == 0 then [x]
    else
      assert s == [s[0]] + s[1..];
      if x <= s[0] then [x] + s else [s[0]] + Insert(x, s[1..])
  }

  function Sort(s: seq<int>): (r: seq<int>)
    ensures multiset(r) == multiset(s)
  {
    if |s| == 0 then []
    else
      assert s == [s[0]] + s[1..];
      Insert(s[0], Sort(s[1..]))
  }

  lemma AscendingPrepend(x: int, s: seq<int>)
    requires Ascending(s) && forall i :: 0 <= i < |s| ==> x <= s[i]
    ensures Ascending([x] + s)
  {}

  lemma {:induction false} InsertKeepsAscending(x: int, s: seq<int>)
    requires Ascending(s)
    ensures Ascending(Insert(x, s))
    decreases |s|
  {
    if |s| > 0 && x > s[0] {
      var r := Insert(x, s[1..]);
      InsertKeepsAscending(x, s[1..]);
      forall i | 0 <= i < |r| ensures s[0] <= r[i] {
        assert r[i] in multiset(r);
        if r[i] != x { assert r[i] in s[1..]; }
      }
      AscendingPrepend(s[0], r);
    }
  }

  lemma {:induction false} SortIsAscending(s: seq<int>)
    ensures Ascending(Sort(s))
    decreases |s|
  {
    if |s| > 0 {
      SortIsAscending(s[1..]);
      InsertKeepsAscending(s[0], Sort(s[1..]));
    }
  }

  lemma SortKeepsMembers(s: seq<int>)
    ensures forall x :: x in Sort(s) <==> x in s
    ensures |Sort(s)| == |s|
  {
    assert forall x :: x in Sort(s) <==> x in multiset(Sort(s));
    assert forall x :: x in s <==> x in multiset(s);
    assert |multiset(Sort(s))| == |Sort(s)| && |multiset(s)| == |s|;
  }

  lemma {:induction false} DistinctCounts(s: seq<int>, x: int)
    requires Distinct(s)
    ensures multiset(s)[x] <= 1
    decreases |s|
  {
    if |s| > 0 {
      var n := |s| - 1;
      DistinctCounts(s[..n], x);
      assert s == s[..n] + [s[n]];
      assert s[n] !in s[..n];
      assert x == s[n] ==> x !in multiset(s[..n]);
    }
  }

  lemma RepeatedCounts(s: seq<int>, i: nat, j: nat)
    requires i < j < |s| && s[i] == s[j]
    ensures multiset(s)[s[i]] >= 2
  {
    assert s == s[..j] + [s[j]] + s[j + 1..];
    assert s[i] in s[..j];
    assert s[i] in multiset(s[..j]);
    assert multiset(s) == multiset(s[..j]) + multiset{s[j]} + multiset(s[j + 1..]);
  }

  lemma SortKeepsDistinct(s: seq<int>)
    requires Distinct(s)
    ensures Distinct(Sort(s))
  {
    var r := Sort(s);
    forall i, j | 0 <= i < j < |r| ensures r[i] != r[j] {
      DistinctCounts(s, r[i]);
      if r[i] == r[j] { RepeatedCounts(r, i, j); }
    }
  }

  function Reverse(s: seq<int>): (r: seq<int>)
    ensures |r| == |s| && forall i :: 0 <= i < |s| ==> r[i] == s[|s| - 1 - i]
    ensures forall x :: x in r <==> x in s
  {
    if |s| == 0 then []
    else
      assert s == [s[0]] + s[1..];
      Reverse(s[1..]) + [s[0]]
  }

  function DescendingOnce(s: seq<int>): (r: seq<int>)
    ensures Descending(r) && forall x :: x in r <==> x in s
  {
    SortKeepsMembers(Once(s));
    SortKeepsDistinct(Once(s));
    SortIsAscending(Once(s));
    Reverse(Sort(Once(s)))
  }

  // ---------------------------------------------------------------------------
  // The text line deleter
  // ---------------------------------------------------------------------------

  function LinePositions(lines: seq<int>): set<int> { set l | l in lines :: l - 1 }

  function Shift(lines: seq<int>): (r: seq<int>)
    ensures |r| == |lines| && forall i :: 0 <= i < |lines| ==> r[i] == lines[i] - 1
  {
    if |lines| == 0 then [] else [lines[0] - 1] + Shift(lines[1..])
  }

  lemma SpliceNext<T>(s: seq<T>, positions: seq<int>, i: nat)
    requires i < |positions|
    ensures SpliceAll(s, positions[i..]) == SpliceAll(SpliceOne(s, positions[i]), positions[i + 1..])
  {
    assert positions[i..][1..] == positions[i + 1..];
  }

  /** None is the error that some line does not exist. */
  method DeleteTextLines(content: seq<string>, lines: seq<int>) returns (r: Option<seq<string>>)
    ensures r.None? <==> exists l :: l in lines && l > |content|
    ensures r.Some? ==> r.value == SpliceAll(content, Shift(DescendingOnce(lines)))
  {
    for i := 0 to |lines|
      invariant forall k :: 0 <= k < i ==> lines[k] <= |content|
    {
      if lines[i] > |content| {
        assert lines[i] in lines;
        return None;
      }
    }
    var sortedLines := Sort(Once(lines));
    var reversedLines := Reverse(sortedLines);
    var newContent := content;
    ghost var positions := Shift(reversedLines);
    for i := 0 to |reversedLines|
      invariant SpliceAll(content, positions) == SpliceAll(newContent, positions[i..])
    {
      SpliceNext(newContent, positions, i);
      newContent := SpliceOne(newContent, reversedLines[i] - 1);
    }
    return Some(newContent);
  }

  /** From the first non-positive line on, all lines are non-positive. */
  lemma {:induction false} SplitDescending(s: seq<int>) returns (k: nat)
    requires Descending(s)
    ensures k <= |s| && (forall i :: 0 <= i < k ==> s[i] >= 0) && (forall i :: k <= i < |s| ==> s[i] < 0)
    decreases |s|
  {
    if |s| == 0 || s[|s| - 1] >= 0 {
      k := |s|;
    } else {
      k := SplitDescending(s[..|s| - 1]);
    }
  }

  lemma ShiftedMembers(lines: seq<int>, p: int)
    ensures p in Shift(lines) <==> p + 1 in lines
  {
    if p in Shift(lines) {
      var i :| 0 <= i < |lines| && Shift(lines)[i] == p;
    }
    if p + 1 in lines {
      var i :| 0 <= i < |lines| && lines[i] == p + 1;
      assert Shift(lines)[i] == p;
    }
  }

  lemma LinePositionMembers(lines: seq<int>, p: int)
    ensures p in LinePositions(lines) <==> p + 1 in lines
  {
    if p + 1 in lines { assert p + 1 - 1 == p; }
  }

  /** Deletion in descending order: first the positions in the text, then as many again from its end. */
  lemma SplicesOfDescending(content: seq<string>, ps: seq<int>) returns (others: nat)
    requires Descending(ps) && forall i :: 0 <= i < |ps| ==> ps[i] < |content|
    ensures var kept := |Without(content, Elements(ps))|;
            && (others == 0 ==> SpliceAll(content, ps) == Without(content, Elements(ps)))
            && |SpliceAll(content, ps)| == if others <= kept then kept - others else 0
    ensures others == 0 <==> forall i :: 0 <= i < |ps| ==> ps[i] >= 0
  {
    var k := SplitDescending(ps);
    var valid, negative := ps[..k], ps[k..];
    others := |negative|;
    assert ps == valid + negative;
    SpliceAllComposes(content, valid, negative);
    DescendingSplicesRemove(content, valid);
    forall p | 0 <= p < |content| ensures p in Elements(valid) <==> p in Elements(ps) {
      assert p in ps <==> p in valid || p in negative;
    }
    WithoutIgnores(content, Elements(valid), Elements(ps));
    NegativeSplices(Without(content, Elements(valid)), negative);
    if others > 0 { assert ps[k] < 0; }
  }

  lemma NamedAllIffNoneKept(content: seq<string>, lines: seq<int>)
    ensures |Without(content, LinePositions(lines))| == 0 <==> forall n :: 1 <= n <= |content| ==> n in lines
  {
    WithoutAll(content, LinePositions(lines));
    forall p ensures p in LinePositions(lines) <==> p + 1 in lines { LinePositionMembers(lines, p); }
    if forall p :: 0 <= p < |content| ==> p in LinePositions(lines) {
      forall n | 1 <= n <= |content| ensures n in lines { assert n - 1 in LinePositions(lines); }
    }
  }

  lemma ShiftedLines(lines: seq<int>, n: nat)
    requires forall l :: l in lines ==> l <= n
    ensures var ps := Shift(DescendingOnce(lines));
            && Descending(ps) && (forall i :: 0 <= i < |ps| ==> ps[i] < n)
            && Elements(ps) == LinePositions(lines)
            && ((forall i :: 0 <= i < |ps| ==> ps[i] >= 0) <==> forall l :: l in lines ==> l >= 1)
  {
    var ls := DescendingOnce(lines);
    var ps := Shift(ls);
    forall i | 0 <= i < |ps| ensures ps[i] + 1 == ls[i] && ls[i] in lines {}
    forall p ensures p in Elements(ps) <==> p in LinePositions(lines) {
      ShiftedMembers(ls, p);
      LinePositionMembers(lines, p);
    }
    if forall i :: 0 <= i < |ps| ==> ps[i] >= 0 {
      forall l | l in lines ensures l >= 1 {
        var i :| 0 <= i < |ls| && ls[i] == l;
        assert ps[i] >= 0;
      }
    }
  }

  /**
   * The text that remains is the original without the named lines exactly if lines are
   * numbered from 1, or nothing is left for the other numbers to delete.
   */
  lemma NamedLinesAreDeletedIff(content: seq<string>, lines: seq<int>)
    requires forall l :: l in lines ==> l <= |content|
    ensures SpliceAll(content, Shift(DescendingOnce(lines))) == Without(content, LinePositions(lines))
       <==> (forall l :: l in lines ==> l >= 1) || (forall n :: 1 <= n <= |content| ==> n in lines)
  {
    ShiftedLines(lines, |content|);
    var others := SplicesOfDescending(content, Shift(DescendingOnce(lines)));
    NamedAllIffNoneKept(content, lines);
  }

  /** Line 0 of two lines: the second one is deleted, although no existing line is named. */
  lemma LineZeroDeletesTheLast(first: string, second: string)
    ensures var content := [first, second];
            && SpliceAll(content, Shift(DescendingOnce([0]))) == [first]
            && Without(content, LinePositions([0])) == content
  {
    var content := [first, second];
    assert DescendingOnce([0]) == [0] by {
      assert Once([0][..0]) == [] && Once([0]) == [0];
      assert Sort([0][1..]) == [] && Sort([0]) == [0];
      assert Reverse([0][1..]) == [] && Reverse([0]) == [0];
    }
    assert Shift([0][1..]) == [] && Shift([0]) == [-1];
    assert SpliceOne(content, -1) == [first];
    assert [-1][1..] == [] && SpliceAll([first], []) == [first];
    LinePositionMembers([0], 0);
    LinePositionMembers([0], 1);
    WithoutIgnores(content, LinePositions([0]), {});
    WithoutKeepsTail(content, {}, 0);
    assert content[..0] == [] && content[0..] == content;
  }
}
