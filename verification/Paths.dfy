/** Normalisation of file system paths. */
module Paths {
  import opened Common

  // ---------------------------------------------------------------------------
  // Splitting at separators
  // ---------------------------------------------------------------------------

  function Split(s: string): (r: seq<string>)
    ensures |r| > 0 && forall i :: 0 <= i < |r| ==> '/' !in r[i]
  {
    if |s| == 0 then [""]
    else
      var rest := Split(s[1..]);
      if s[0] == '/' then [""] + rest else [[s[0]] + rest[0]] + rest[1..]
  }

  function Join(parts: seq<string>): string
    requires |parts| > 0
  {
    if |parts| == 1 then parts[0] else parts[0] + "/" + Join(parts[1..])
  }

  lemma {:induction false} SplitAtSeparator(p: string, q: string)
    ensures Split(p + "/" + q) == Split(p) + Split(q)
    decreases |p|
  {
    var s := p + "/" + q;
    if |p| == 0 {
      assert s[1..] == q;
    } else {
      assert s[1..] == p[1..] + "/" + q;
      SplitAtSeparator(p[1..], q);
    }
  }

  lemma {:induction false} SplitWithoutSeparator(s: string)
    requires '/' !in s
    ensures Split(s) == [s]
    decreases |s|
  {
    if |s| > 0 {
      SplitWithoutSeparator(s[1..]);
      assert s == [s[0]] + s[1..];
    }
  }

  lemma {:induction false} SplitUndoesJoin(parts: seq<string>)
    requires |parts| > 0 && forall i :: 0 <= i < |parts| ==> '/' !in parts[i]
    ensures Split(Join(parts)) == parts
    decreases |parts|
  {
    SplitWithoutSeparator(parts[0]);
    if |parts| > 1 {
      SplitUndoesJoin(parts[1..]);
      SplitAtSeparator(parts[0], Join(parts[1..]));
      assert parts == [parts[0]] + parts[1..];
    } else {
      assert parts == [parts[0]];
    }
  }

  // ---------------------------------------------------------------------------
  // Walking up and down
  // ---------------------------------------------------------------------------

  predicate IsName(part: string) { part != "" && part != "." && part != ".." }

  /** Where the parts lead from a directory; None above the root. */
  function Walk(parts: seq<string>, here: seq<string>): Option<seq<string>>
    decreases |parts|
  {
    if |parts| == 0 then Some(here)
    else if parts[0] == "" || parts[0] == "." then Walk(parts[1..], here)
    else if parts[0] == ".." then
      if |here| == 0 then None else Walk(parts[1..], here[..|here| - 1])
    else Walk(parts[1..], here + [parts[0]])
  }

  /** The absolute parts of a path, the root first; None for a path that is rejected. */
  function Normalize(path: string): Option<seq<string>> {
    var parts := Split(path);
    if parts[0] != "" && parts[0] != "." then None
    else
      match Walk(parts[1..], [])
      case None => None
      case Some(names) => Some([""] + names)
  }

  function NonEmpty(parts: seq<string>): seq<string> { Filter((p: string) => p != "", parts) }

  lemma {:induction false} EmptyPartsAreSkipped(parts: seq<string>, here: seq<string>)
    ensures Walk(NonEmpty(parts), here) == Walk(parts, here)
    decreases |parts|
  {
    if |parts| > 0 {
      assert NonEmpty(parts) == (if parts[0] != "" then [parts[0]] else []) + NonEmpty(parts[1..]);
      if parts[0] == "" {
        assert NonEmpty(parts) == NonEmpty(parts[1..]);
      } else {
        assert NonEmpty(parts)[0] == parts[0] && NonEmpty(parts)[1..] == NonEmpty(parts[1..]);
      }
      if parts[0] == "" || parts[0] == "." { EmptyPartsAreSkipped(parts[1..], here); }
      else if parts[0] != ".." { EmptyPartsAreSkipped(parts[1..], here + [parts[0]]); }
      else if |here| > 0 { EmptyPartsAreSkipped(parts[1..], here[..|here| - 1]); }
    }
  }

  method ProcessPath(path: string) returns (r: Option<seq<string>>)
    ensures r == Normalize(path)
  {
    var split := Split(path);
    if !(split[0] == "" || split[0] == ".") { return None; }
    var parts := NonEmpty(split[1..]);
    EmptyPartsAreSkipped(split[1..], []);
    var processedParts: seq<string> := [];
    for i := 0 to |parts|
      invariant Walk(parts, []) == Walk(parts[i..], processedParts)
    {
      var part := parts[i];
      assert part in parts;
      if part == "." { continue; }
      if part == ".." {
        if |processedParts| == 0 { return None; }
        processedParts := processedParts[..|processedParts| - 1];
      } else {
        processedParts := processedParts + [part];
      }
    }
    return Some([""] + processedParts);
  }

  // ---------------------------------------------------------------------------
  // What normalisation promises
  // ---------------------------------------------------------------------------

  /** Names minus ascents. */
  function Balance(parts: seq<string>): int {
    if |parts| == 0 then 0
    else (if parts[0] == ".." then -1 else if IsName(parts[0]) then 1 else 0) + Balance(parts[1..])
  }

  lemma {:induction false} WalkFailsAboveRoot(parts: seq<string>, here: seq<string>)
    ensures Walk(parts, here).None? <==> exists k :: 0 <= k <= |parts| && |here| + Balance(parts[..k]) < 0
    decreases |parts|
  {
    if |parts| > 0 {
      var step := if parts[0] == ".." then -1 else if IsName(parts[0]) then 1 else 0;
      forall k | 0 < k <= |parts| ensures Balance(parts[..k]) == step + Balance(parts[1..][..k - 1]) {
        assert parts[..k][1..] == parts[1..][..k - 1];
      }
      assert Balance(parts[..0]) == 0;
      if step == -1 && |here| == 0 {
        assert |here| + Balance(parts[..1]) < 0;
      } else {
        var next := if step == -1 then here[..|here| - 1] else if step == 1 then here + [parts[0]] else here;
        WalkFailsAboveRoot(parts[1..], next);
        if k :| 0 <= k <= |parts[1..]| && |next| + Balance(parts[1..][..k]) < 0 {
          assert parts[1..][..k + 1 - 1] == parts[1..][..k];
          assert |here| + Balance(parts[..k + 1]) < 0;
        }
        if k :| 0 <= k <= |parts| && |here| + Balance(parts[..k]) < 0 {
          assert k > 0 && |next| + Balance(parts[1..][..k - 1]) < 0;
        }
      }
    }
  }

  /** A path is rejected exactly for its head or for ascending above the root somewhere on the way. */
  lemma RejectedIff(path: string)
    ensures Normalize(path).None? <==>
              || (Split(path)[0] != "" && Split(path)[0] != ".")
              || exists k :: 0 <= k <= |Split(path)[1..]| && Balance(Split(path)[1..][..k]) < 0
  {
    WalkFailsAboveRoot(Split(path)[1..], []);
  }

  ghost predicate AllNames(parts: seq<string>) {
    forall i :: 0 <= i < |parts| ==> IsName(parts[i]) && '/' !in parts[i]
  }

  lemma {:induction false} WalkYieldsNames(parts: seq<string>, here: seq<string>)
    requires AllNames(here) && forall i :: 0 <= i < |parts| ==> '/' !in parts[i]
    ensures Walk(parts, here).Some? ==> AllNames(Walk(parts, here).value)
    decreases |parts|
  {
    if |parts| > 0 {
      if parts[0] == "" || parts[0] == "." { WalkYieldsNames(parts[1..], here); }
      else if parts[0] != ".." { WalkYieldsNames(parts[1..], here + [parts[0]]); }
      else if |here| > 0 { WalkYieldsNames(parts[1..], here[..|here| - 1]); }
    }
  }

  /** Normal parts are the root followed by proper names only. */
  lemma NormalizedIsClean(path: string)
    requires Normalize(path).Some?
    ensures var parts := Normalize(path).value; parts[0] == "" && AllNames(parts[1..])
  {
    WalkYieldsNames(Split(path)[1..], []);
  }

  lemma {:induction false} WalkComposes(a: seq<string>, b: seq<string>, here: seq<string>)
    ensures Walk(a + b, here) == match Walk(a, here) case None => None case Some(there) => Walk(b, there)
    decreases |a|
  {
    if |a| == 0 {
      assert a + b == b;
    } else {
      assert (a + b)[1..] == a[1..] + b;
      if a[0] == "" || a[0] == "." { WalkComposes(a[1..], b, here); }
      else if a[0] != ".." { WalkComposes(a[1..], b, here + [a[0]]); }
      else if |here| > 0 { WalkComposes(a[1..], b, here[..|here| - 1]); }
    }
  }

  lemma {:induction false} WalkAlongNames(names: seq<string>, here: seq<string>)
    requires AllNames(names)
    ensures Walk(names, here) == Some(here + names)
    decreases |names|
  {
    if |names| > 0 {
      WalkAlongNames(names[1..], here + [names[0]]);
      assert here + [names[0]] + names[1..] == here + names;
    } else {
      assert here + names == here;
    }
  }

  /** Writing normal parts as a path again and normalising it changes nothing. */
  lemma NormalizeIsIdempotent(path: string)
    requires Normalize(path).Some?
    ensures Normalize(Join(Normalize(path).value)) == Normalize(path)
  {
    var parts := Normalize(path).value;
    NormalizedIsClean(path);
    SplitUndoesJoin(parts);
    WalkAlongNames(parts[1..], []);
    assert [] + parts[1..] == parts[1..] && [""] + parts[1..] == parts;
  }

  lemma NormalizeBelow(p: string, q: string)
    ensures Normalize(p + "/" + q)
         == match Normalize(p)
            case None => None
            case Some(parts) =>
              match Walk(Split(q), parts[1..])
              case None => None
              case Some(names) => Some([""] + names)
  {
    SplitAtSeparator(p, q);
    assert Split(p + "/" + q)[1..] == Split(p)[1..] + Split(q);
    WalkComposes(Split(p)[1..], Split(q), []);
  }

  /** A path below another one may be normalised in two steps. */
  lemma NormalizeComposes(p: string, q: string)
    ensures Normalize(p + "/" + q)
         == match Normalize(p) case None => None case Some(parts) => Normalize(Join(parts) + "/" + q)
  {
    NormalizeBelow(p, q);
    if Normalize(p).Some? {
      NormalizeIsIdempotent(p);
      NormalizeBelow(Join(Normalize(p).value), q);
    }
  }

  // ---------------------------------------------------------------------------
  // What one more part does
  // ---------------------------------------------------------------------------

  /** The root can be left out or written as a dot; nothing else without separator is a path. */
  lemma PathsStartAtTheRoot(head: string)
    requires '/' !in head
    ensures Normalize(head) == if head == "" || head == "." then Some([""]) else None
  {
    SplitWithoutSeparator(head);
    var root: seq<string> := [""];
    assert Split(head)[1..] == [] && root + [] == root;
  }

  /** Any other part leads on from where the path before it leads. */
  lemma LastPartDecides(p: string, part: string)
    requires '/' !in part
    ensures Normalize(p).None? ==> Normalize(p + "/" + part).None?
    ensures Normalize(p).Some? ==>
              var here := Normalize(p).value;
              Normalize(p + "/" + part)
              == if part == "" || part == "." then Some(here)
                 else if part != ".." then Some(here + [part])
                 else if |here| > 1 then Some(here[..|here| - 1]) else None
  {
    NormalizeBelow(p, part);
    SplitWithoutSeparator(part);
    if Normalize(p).Some? {
      var here := Normalize(p).value;
      NormalizedIsClean(p);
      assert here == [""] + here[1..];
      assert [part][1..] == [];
      if part == ".." && |here| > 1 {
        assert here[..|here| - 1] == [""] + here[1..][..|here[1..]| - 1];
      } else if IsName(part) {
        assert here + [part] == [""] + (here[1..] + [part]);
      }
    }
  }

  /** Going down to a name and up again changes nothing. */
  lemma AscentUndoesDescent(p: string, name: string)
    requires IsName(name) && '/' !in name
    ensures Normalize(p + "/" + name + "/..") == Normalize(p)
  {
    LastPartDecides(p, name);
    LastPartDecides(p + "/" + name, "..");
    assert p + "/" + name + "/.." == p + "/" + name + "/" + "..";
    if Normalize(p).Some? {
      var here := Normalize(p).value;
      NormalizedIsClean(p);
      assert (here + [name])[..|here + [name]| - 1] == here;
    }
  }
}
