/** The validation that looks for cycles of imports between documents. */
module Imports {
  import opened Common

  /** Identity of a document: its URI. */
  type Document = nat

  /** An import definition; the target is None if it cannot be resolved. */
  datatype Import = Import(definition: nat, target: Option<Document>)

  /** The imports of each document of the workspace. */
  type Workspace = map<Document, seq<Import>>

  predicate Resolves(w: Workspace, i: Import) { i.target.Some? ==> i.target.value in w }

  /** Imports that can be resolved lead to documents of the workspace. */
  predicate Closed(w: Workspace) {
    forall d, k :: d in w && 0 <= k < |w[d]| ==> Resolves(w, w[d][k])
  }

  predicate ImportsDocument(w: Workspace, d: Document, e: Document) {
    d in w && exists k :: 0 <= k < |w[d]| && w[d][k].target == Some(e)
  }

  // ---------------------------------------------------------------------------
  // The walk
  // ---------------------------------------------------------------------------

  class VisitedDocuments {
    var uris: set<Document>

    constructor ()
      ensures uris == {}
    {
      uris := {};
    }

    method Add(d: Document)
      modifies this
      ensures uris == old(uris) + {d}
    {
      uris := uris + {d};
    }
  }

  datatype Trace = Trace(isCyclic: bool, path: seq<Import>)

  function CountCyclic(traces: seq<Trace>): nat {
    if |traces| == 0 then 0
    else CountCyclic(traces[..|traces| - 1]) + (if traces[|traces| - 1].isCyclic then 1 else 0)
  }

  lemma {:induction false} SomeCyclicIffCounted(traces: seq<Trace>)
    ensures CountCyclic(traces) > 0 <==> exists i :: 0 <= i < |traces| && traces[i].isCyclic
    decreases |traces|
  {
    if |traces| > 0 {
      var n := |traces| - 1;
      SomeCyclicIffCounted(traces[..n]);
      assert forall i :: 0 <= i < n ==> traces[..n][i] == traces[i];
    }
  }

  function AddToPaths(i: Import, traces: seq<Trace>): (r: seq<Trace>)
    ensures |r| == |traces|
    ensures forall k :: 0 <= k < |r| ==> r[k] == Trace(traces[k].isCyclic, [i] + traces[k].path)
  {
    seq(|traces|, k requires 0 <= k < |traces| => Trace(traces[k].isCyclic, [i] + traces[k].path))
  }

  lemma {:induction false} CountOfConcatenation(a: seq<Trace>, b: seq<Trace>)
    ensures CountCyclic(a + b) == CountCyclic(a) + CountCyclic(b)
    decreases |b|
  {
    if |b| == 0 {
      assert a + b == a;
    } else {
      CountOfConcatenation(a, b[..|b| - 1]);
      assert (a + b)[..|a + b| - 1] == a + b[..|b| - 1];
    }
  }

  lemma {:induction false} CountOfExtendedPaths(i: Import, traces: seq<Trace>)
    ensures CountCyclic(AddToPaths(i, traces)) == CountCyclic(traces)
    decreases |traces|
  {
    if |traces| > 0 {
      var n := |traces| - 1;
      CountOfExtendedPaths(i, traces[..n]);
      assert AddToPaths(i, traces)[..n] == AddToPaths(i, traces[..n]);
    }
  }

  /** A place that imports a document: the analysed import itself, or one in a document. */
  datatype Site = Root | In(document: Document, index: nat)

  /** The resolved ones of the first n imports of a document. */
  function SitesIn(w: Workspace, d: Document, n: nat): seq<Site>
    requires d in w && n <= |w[d]|
  {
    if n == 0 then []
    else SitesIn(w, d, n - 1) + (if w[d][n - 1].target.Some? then [In(d, n - 1)] else [])
  }

  function SitesOf(w: Workspace, docs: seq<Document>): seq<Site>
    requires forall d :: d in docs ==> d in w
  {
    if |docs| == 0 then []
    else
      var n := |docs| - 1;
      SitesOf(w, docs[..n]) + SitesIn(w, docs[n], |w[docs[n]]|)
  }

  lemma {:induction false} SitesInMembers(w: Workspace, d: Document, n: nat, s: Site)
    requires d in w && n <= |w[d]|
    ensures s in SitesIn(w, d, n) <==> s.In? && s.document == d && s.index < n && w[d][s.index].target.Some?
    decreases n
  {
    if n > 0 { SitesInMembers(w, d, n - 1, s); }
  }

  lemma {:induction false} SitesOfMembers(w: Workspace, docs: seq<Document>, s: Site)
    requires forall d :: d in docs ==> d in w
    ensures s in SitesOf(w, docs) <==>
              s.In? && s.document in docs && s.index < |w[s.document]| && w[s.document][s.index].target.Some?
    decreases |docs|
  {
    if |docs| > 0 {
      var n := |docs| - 1;
      SplitLast(docs);
      SitesOfMembers(w, docs[..n], s);
      SitesInMembers(w, docs[n], |w[docs[n]]|, s);
    }
  }

  lemma {:induction false} SitesOfConcatenation(w: Workspace, a: seq<Document>, b: seq<Document>)
    requires (forall d :: d in a ==> d in w) && (forall d :: d in b ==> d in w)
    ensures SitesOf(w, a + b) == SitesOf(w, a) + SitesOf(w, b)
    decreases |b|
  {
    if |b| == 0 {
      assert a + b == a;
    } else {
      var n := |b| - 1;
      SplitLast(b);
      SitesOfConcatenation(w, a, b[..n]);
      assert (a + b)[..|a + b| - 1] == a + b[..n] && (a + b)[|a + b| - 1] == b[n];
      ConcatenationIsAssociative(SitesOf(w, a), SitesOf(w, b[..n]), SitesIn(w, b[n], |w[b[n]]|));
    }
  }

  /** All imports of the documents lead to visited ones. */
  ghost predicate Explored(w: Workspace, docs: seq<Document>, visited: set<Document>) {
    forall d, e :: d in docs && ImportsDocument(w, d, e) ==> e in visited
  }

  // ---------------------------------------------------------------------------
  // Traces
  // ---------------------------------------------------------------------------

  predicate IsPlace(w: Workspace, s: Site) { s.Root? || (s.document in w && s.index < |w[s.document]|) }

  function ImportAt(w: Workspace, i: Import, s: Site): Import
    requires IsPlace(w, s)
  {
    match s
    case Root => i
    case In(d, k) => w[d][k]
  }

  /** A place whose import can be resolved. */
  predicate IsSite(w: Workspace, i: Import, s: Site) { IsPlace(w, s) && ImportAt(w, i, s).target.Some? }

  function TargetOf(w: Workspace, i: Import, s: Site): Document
    requires IsSite(w, i, s)
  {
    ImportAt(w, i, s).target.value
  }

  /** The path follows imports from one place to another. */
  ghost predicate LeadsTo(w: Workspace, i: Import, from: Site, path: seq<Import>, s: Site)
    decreases |path|
  {
    && |path| > 0 && IsPlace(w, from) && path[0] == ImportAt(w, i, from)
    && if |path| == 1 then s == from
       else IsSite(w, i, from) && exists k: nat :: LeadsTo(w, i, In(TargetOf(w, i, from), k), path[1..], s)
  }

  /** The start of a walk, or a place in one of the documents. */
  predicate InScope(from: Site, docs: set<Document>, s: Site) { s == from || (s.In? && s.document in docs) }

  /** The target was visited before, or it is the target of another place in scope. */
  ghost predicate Repeats(w: Workspace, i: Import, from: Site, before: set<Document>, docs: set<Document>, s: Site)
    requires IsSite(w, i, s)
  {
    TargetOf(w, i, s) in before
    || exists s' :: s' != s && InScope(from, docs, s') && IsSite(w, i, s') && TargetOf(w, i, s') == TargetOf(w, i, s)
  }

  /** The trace leads to the place, which repeats an earlier one if the trace is cyclic, and is unresolved otherwise. */
  ghost predicate EndsAt(w: Workspace, i: Import, from: Site, before: set<Document>, docs: set<Document>, t: Trace,
                         s: Site) {
    && LeadsTo(w, i, from, t.path, s) && InScope(from, docs, s) && IsPlace(w, s)
    && (t.isCyclic <==> IsSite(w, i, s))
    && (t.isCyclic ==> Repeats(w, i, from, before, docs, s))
  }

  ghost predicate IsTraceOf(w: Workspace, i: Import, from: Site, before: set<Document>, docs: set<Document>, t: Trace) {
    exists s :: EndsAt(w, i, from, before, docs, t, s)
  }

  ghost predicate AreTraces(w: Workspace, i: Import, from: Site, before: set<Document>, docs: set<Document>,
                            traces: seq<Trace>)
  {
    forall k :: 0 <= k < |traces| ==> IsTraceOf(w, i, from, before, docs, traces[k])
  }

  /** The document is the target of one of the first n imports of d, or of a place in the documents. */
  ghost predicate FoundBy(w: Workspace, i: Import, d: Document, n: nat, docs: set<Document>, e: Document) {
    exists s :: IsSite(w, i, s) && TargetOf(w, i, s) == e
      && s.In? && ((s.document == d && s.index < n) || s.document in docs)
  }

  ghost predicate Discovered(w: Workspace, i: Import, from: Site, docs: set<Document>) {
    forall e :: e in docs ==> exists s :: InScope(from, docs, s) && IsSite(w, i, s) && TargetOf(w, i, s) == e
  }

  ghost predicate DiscoveredBelow(w: Workspace, i: Import, d: Document, n: nat, docs: set<Document>) {
    forall e :: e in docs ==> FoundBy(w, i, d, n, docs, e)
  }

  /** Repetition only needs the scope to grow. */
  lemma TracesInWiderScope(w: Workspace, i: Import, from: Site, before: set<Document>, docs: set<Document>,
                           wider: set<Document>, traces: seq<Trace>)
    requires docs <= wider && AreTraces(w, i, from, before, docs, traces)
    ensures AreTraces(w, i, from, before, wider, traces)
  {
    forall k | 0 <= k < |traces| ensures IsTraceOf(w, i, from, before, wider, traces[k]) {
      var s :| EndsAt(w, i, from, before, docs, traces[k], s);
      assert EndsAt(w, i, from, before, wider, traces[k], s);
    }
  }

  /**
   * A trace found while analysing the k-th import of the current document, seen from the import that led
   * to that document: what it repeats was visited before, or was found at a different place.
   */
  lemma ExtendedTrace(w: Workspace, i: Import, from: Site, before: set<Document>, k: nat, below: set<Document>,
                      more: set<Document>, t: Trace)
    requires IsSite(w, i, from) && (from.In? ==> from.document in before)
    requires TargetOf(w, i, from) !in before && below !! before + {TargetOf(w, i, from)}
    requires more !! before + {TargetOf(w, i, from)} + below
    requires DiscoveredBelow(w, i, TargetOf(w, i, from), k, below)
    requires IsTraceOf(w, i, In(TargetOf(w, i, from), k), before + {TargetOf(w, i, from)} + below, more, t)
    ensures IsTraceOf(w, i, from, before, {TargetOf(w, i, from)} + below + more,
                      Trace(t.isCyclic, [ImportAt(w, i, from)] + t.path))
  {
    var current := TargetOf(w, i, from);
    var next, docs := In(current, k), {current} + below + more;
    var s :| EndsAt(w, i, next, before + {current} + below, more, t, s);
    var path := [ImportAt(w, i, from)] + t.path;
    assert path[1..] == t.path;
    assert LeadsTo(w, i, from, path, s);
    if t.isCyclic && TargetOf(w, i, s) !in before {
      RepeatedElsewhere(w, i, from, before, k, below, more, s);
    }
    assert EndsAt(w, i, from, before, docs, Trace(t.isCyclic, path), s);
  }

  lemma RepeatedElsewhere(w: Workspace, i: Import, from: Site, before: set<Document>, k: nat, below: set<Document>,
                          more: set<Document>, s: Site)
    requires IsSite(w, i, from) && (from.In? ==> from.document in before)
    requires TargetOf(w, i, from) !in before && below !! before + {TargetOf(w, i, from)}
    requires more !! before + {TargetOf(w, i, from)} + below
    requires DiscoveredBelow(w, i, TargetOf(w, i, from), k, below)
    requires IsSite(w, i, s) && InScope(In(TargetOf(w, i, from), k), more, s)
    requires Repeats(w, i, In(TargetOf(w, i, from), k), before + {TargetOf(w, i, from)} + below, more, s)
    ensures Repeats(w, i, from, before, {TargetOf(w, i, from)} + below + more, s)
  {
    var current, target := TargetOf(w, i, from), TargetOf(w, i, s);
    if target == current {
      assert from != s && InScope(from, {current} + below + more, from);
    } else if target in below {
      assert FoundBy(w, i, current, k, below, target);
    }
  }

  // ---------------------------------------------------------------------------
  // Reachability
  // ---------------------------------------------------------------------------

  ghost predicate ReachesIn(w: Workspace, a: Document, b: Document, n: nat)
    decreases n
  {
    if n == 0 then a == b else exists q :: ReachesIn(w, a, q, n - 1) && ImportsDocument(w, q, b)
  }

  ghost predicate Reaches(w: Workspace, a: Document, b: Document) {
    exists n: nat :: ReachesIn(w, a, b, n)
  }

  lemma {:induction false} ReachesComposes(w: Workspace, a: Document, b: Document, c: Document, m: nat, n: nat)
    requires ReachesIn(w, a, b, m) && ReachesIn(w, b, c, n)
    ensures ReachesIn(w, a, c, m + n)
    decreases n
  {
    if n > 0 {
      var q :| ReachesIn(w, b, q, n - 1) && ImportsDocument(w, q, c);
      ReachesComposes(w, a, b, q, m, n - 1);
    }
  }

  lemma ReachesIsTransitive(w: Workspace, a: Document, b: Document, c: Document)
    requires Reaches(w, a, b) && Reaches(w, b, c)
    ensures Reaches(w, a, c)
  {
    var m: nat :| ReachesIn(w, a, b, m);
    var n: nat :| ReachesIn(w, b, c, n);
    ReachesComposes(w, a, b, c, m, n);
  }

  lemma ImportReaches(w: Workspace, a: Document, b: Document)
    requires ImportsDocument(w, a, b)
    ensures Reaches(w, a, b)
  {
    assert ReachesIn(w, a, a, 0);
    assert ReachesIn(w, a, b, 1);
  }

  ghost predicate AllReachedFrom(w: Workspace, a: Document, docs: seq<Document>) {
    forall d :: d in docs ==> Reaches(w, a, d)
  }

  lemma ReachedThrough(w: Workspace, a: Document, b: Document, docs: seq<Document>)
    requires ImportsDocument(w, a, b) && AllReachedFrom(w, b, docs)
    ensures AllReachedFrom(w, a, docs)
  {
    ImportReaches(w, a, b);
    forall d | d in docs ensures Reaches(w, a, d) { ReachesIsTransitive(w, a, b, d); }
  }

  // ---------------------------------------------------------------------------
  // The recursive analysis
  // ---------------------------------------------------------------------------

  /** Documents of the workspace, each once. */
  ghost predicate DocumentsOf(w: Workspace, docs: seq<Document>) {
    Distinct(docs) && forall d :: d in docs ==> d in w
  }

  /** One cyclic trace for each traversed import whose target was visited before. */
  ghost predicate Counted(w: Workspace, i: Import, added: seq<Document>, traces: seq<Trace>)
    requires forall d :: d in added ==> d in w
  {
    CountCyclic(traces) + |added| == (if i.target.Some? then 1 else 0) + |SitesOf(w, added)|
  }

  /** What the analysis of an import has achieved when it has added documents to those visited before. */
  ghost predicate Analysed(w: Workspace, i: Import, before: set<Document>, added: seq<Document>, traces: seq<Trace>) {
    && DocumentsOf(w, added) && Elements(added) !! before
    && (i.target.Some? ==> i.target.value in before + Elements(added) && AllReachedFrom(w, i.target.value, added))
    && (i.target.None? ==> added == [])
    && Explored(w, added, before + Elements(added))
    && Counted(w, i, added, traces)
  }

  /** What holds when the first k imports of the current document have been analysed. */
  ghost predicate AnalysedBelow(w: Workspace, d: Document, k: nat, start: set<Document>, below: seq<Document>,
                                traces: seq<Trace>)
    requires d in w && k <= |w[d]|
  {
    && DocumentsOf(w, below) && Elements(below) !! start
    && AllReachedFrom(w, d, below)
    && Explored(w, below, start + Elements(below))
    && FirstExplored(w, d, k, start + Elements(below))
    && CountCyclic(traces) + |below| == |SitesIn(w, d, k)| + |SitesOf(w, below)|
  }

  /** The first k imports of the document lead to visited ones. */
  ghost predicate FirstExplored(w: Workspace, d: Document, k: nat, visited: set<Document>)
    requires d in w && k <= |w[d]|
  {
    forall l :: 0 <= l < k && w[d][l].target.Some? ==> w[d][l].target.value in visited
  }

  /** The traces of the walk that starts at a place, and how it came to the documents it added. */
  ghost predicate Traced(w: Workspace, i: Import, from: Site, before: set<Document>, docs: set<Document>,
                         traces: seq<Trace>) {
    AreTraces(w, i, from, before, docs, traces) && Discovered(w, i, from, docs)
  }

  ghost predicate TracedBelow(w: Workspace, i: Import, from: Site, k: nat, before: set<Document>, below: set<Document>,
                              traces: seq<Trace>)
    requires IsSite(w, i, from)
  {
    var current := TargetOf(w, i, from);
    AreTraces(w, i, from, before, {current} + below, traces) && DiscoveredBelow(w, i, current, k, below)
  }

  lemma ElementsOfConcatenation<T>(a: seq<T>, b: seq<T>)
    ensures Elements(a + b) == Elements(a) + Elements(b)
    ensures Distinct(a) && Distinct(b) && Elements(a) !! Elements(b) ==> Distinct(a + b)
  {
    if Distinct(a) && Distinct(b) && Elements(a) !! Elements(b) {
      forall i, j | 0 <= i < j < |a + b| ensures (a + b)[i] != (a + b)[j] {
        if i < |a| <= j { assert a[i] in Elements(a) && b[j - |a|] in Elements(b); }
      }
    }
  }

  lemma AnalysedOneMore(w: Workspace, i: Import, d: Document, k: nat, start: set<Document>, below: seq<Document>,
                        traces: seq<Trace>, down: seq<Trace>, more: seq<Document>)
    requires Closed(w) && d in w && k < |w[d]| && AnalysedBelow(w, d, k, start, below, traces)
    requires Analysed(w, w[d][k], start + Elements(below), more, down)
    ensures AnalysedBelow(w, d, k + 1, start, below + more, traces + AddToPaths(i, down))
    ensures start + Elements(below) + Elements(more) == start + Elements(below + more)
  {
    var further := w[d][k];
    ElementsOfConcatenation(below, more);
    CountOfExtendedPaths(i, down);
    CountOfConcatenation(traces, AddToPaths(i, down));
    SitesOfConcatenation(w, below, more);
    if further.target.Some? { ReachedThrough(w, d, further.target.value, more); }
  }

  lemma TracedOneMore(w: Workspace, i: Import, from: Site, k: nat, before: set<Document>, below: set<Document>,
                      traces: seq<Trace>, down: seq<Trace>, more: set<Document>)
    requires IsSite(w, i, from) && (from.In? ==> from.document in before)
    requires TargetOf(w, i, from) !in before && below !! before + {TargetOf(w, i, from)}
    requires more !! before + {TargetOf(w, i, from)} + below
    requires TracedBelow(w, i, from, k, before, below, traces)
    requires Traced(w, i, In(TargetOf(w, i, from), k), before + {TargetOf(w, i, from)} + below, more, down)
    ensures TracedBelow(w, i, from, k + 1, before, below + more, traces + AddToPaths(ImportAt(w, i, from), down))
  {
    var current, extended := TargetOf(w, i, from), AddToPaths(ImportAt(w, i, from), down);
    assert {current} + below + more == {current} + (below + more);
    TracesInWiderScope(w, i, from, before, {current} + below, {current} + (below + more), traces);
    forall j | 0 <= j < |extended| ensures IsTraceOf(w, i, from, before, {current} + (below + more), extended[j]) {
      ExtendedTrace(w, i, from, before, k, below, more, down[j]);
    }
    DiscoveredOneMore(w, i, current, k, below, more);
  }

  lemma DiscoveredOneMore(w: Workspace, i: Import, d: Document, k: nat, below: set<Document>, more: set<Document>)
    requires DiscoveredBelow(w, i, d, k, below) && Discovered(w, i, In(d, k), more)
    ensures DiscoveredBelow(w, i, d, k + 1, below + more)
  {
    forall e | e in below + more ensures FoundBy(w, i, d, k + 1, below + more, e) {
      if e in below {
        assert FoundBy(w, i, d, k, below, e);
      }
    }
  }

  lemma AnalysedAll(w: Workspace, i: Import, before: set<Document>, below: seq<Document>, traces: seq<Trace>)
    requires i.target.Some? && i.target.value in w && i.target.value !in before
    requires AnalysedBelow(w, i.target.value, |w[i.target.value]|, before + {i.target.value}, below, traces)
    ensures Analysed(w, i, before, [i.target.value] + below, traces)
    ensures before + {i.target.value} + Elements(below) == before + Elements([i.target.value] + below)
  {
    var current := i.target.value;
    assert Elements([current]) == {current};
    ElementsOfConcatenation([current], below);
    SitesOfConcatenation(w, [current], below);
    assert SitesOf(w, [current]) == SitesIn(w, current, |w[current]|);
    assert ReachesIn(w, current, current, 0);
  }

  lemma TracedAll(w: Workspace, i: Import, from: Site, k: nat, before: set<Document>, below: seq<Document>,
                  traces: seq<Trace>)
    requires IsSite(w, i, from) && TracedBelow(w, i, from, k, before, Elements(below), traces)
    ensures Traced(w, i, from, before, Elements([TargetOf(w, i, from)] + below), traces)
  {
    var current := TargetOf(w, i, from);
    assert Elements([current] + below) == {current} + Elements(below);
    forall e | e in {current} + Elements(below)
      ensures exists s :: InScope(from, {current} + Elements(below), s) && IsSite(w, i, s) && TargetOf(w, i, s) == e
    {
      if e == current {
        assert InScope(from, {current} + Elements(below), from);
      } else {
        assert FoundBy(w, i, current, k, Elements(below), e);
      }
    }
  }

  /** An import that is unresolved or leads to a visited document ends the recursion. */
  lemma AnalysedAtOnce(w: Workspace, i: Import, from: Site, before: set<Document>)
    requires IsPlace(w, from)
    requires var here := ImportAt(w, i, from); here.target.Some? ==> here.target.value in before
    ensures var here := ImportAt(w, i, from);
            var traces := [Trace(here.target.Some?, [here])];
            Analysed(w, here, before, [], traces) && Traced(w, i, from, before, Elements<Document>([]), traces)
  {
    var here := ImportAt(w, i, from);
    var traces := [Trace(here.target.Some?, [here])];
    assert traces[..0] == [];
    assert CountCyclic(traces) == if here.target.Some? then 1 else 0;
    assert EndsAt(w, i, from, before, Elements<Document>([]), traces[0], from);
  }

  /**
   * Analyses the import at a place: the import of the first call, or one in a visited document. The
   * first import is passed along to give the places their imports.
   */
  method AnalyzeImportChain(w: Workspace, here: Import, visited: VisitedDocuments, ghost i: Import, ghost from: Site)
    returns (traces: seq<Trace>, ghost added: seq<Document>)
    requires Closed(w) && Resolves(w, here)
    requires IsPlace(w, from) && here == ImportAt(w, i, from) && (from.In? ==> from.document in visited.uris)
    modifies visited
    ensures visited.uris == old(visited.uris) + Elements(added)
    ensures Analysed(w, here, old(visited.uris), added, traces)
    ensures Traced(w, i, from, old(visited.uris), Elements(added), traces)
    decreases w.Keys - visited.uris, 0
  {
    if here.target.None? {
      AnalysedAtOnce(w, i, from, visited.uris);
      return [Trace(false, [here])], [];
    }
    var current := here.target.value;
    if current in visited.uris {
      AnalysedAtOnce(w, i, from, visited.uris);
      return [Trace(true, [here])], [];
    }
    visited.Add(current);
    assert current in w.Keys - old(visited.uris) && current !in w.Keys - visited.uris;
    ghost var below;
    traces, below := AnalyzeFurtherImports(w, here, visited, i, from, old(visited.uris));
    added := [current] + below;
    AnalysedAll(w, here, old(visited.uris), below, traces);
    TracedAll(w, i, from, |w[current]|, old(visited.uris), below, traces);
  }

  ghost predicate SoFar(w: Workspace, i: Import, from: Site, k: nat, before: set<Document>, below: seq<Document>,
                        visited: set<Document>, traces: seq<Trace>)
    requires IsSite(w, i, from) && TargetOf(w, i, from) in w && k <= |w[TargetOf(w, i, from)]|
  {
    && visited == before + {TargetOf(w, i, from)} + Elements(below)
    && AnalysedBelow(w, TargetOf(w, i, from), k, before + {TargetOf(w, i, from)}, below, traces)
    && TracedBelow(w, i, from, k, before, Elements(below), traces)
  }

  lemma OneMore(w: Workspace, i: Import, from: Site, k: nat, before: set<Document>, below: seq<Document>,
                visited: set<Document>, traces: seq<Trace>, down: seq<Trace>, more: seq<Document>)
    requires Closed(w) && IsSite(w, i, from) && (from.In? ==> from.document in before)
    requires TargetOf(w, i, from) in w && k < |w[TargetOf(w, i, from)]| && TargetOf(w, i, from) !in before
    requires SoFar(w, i, from, k, before, below, visited, traces)
    requires Analysed(w, w[TargetOf(w, i, from)][k], visited, more, down)
    requires Traced(w, i, In(TargetOf(w, i, from), k), visited, Elements(more), down)
    ensures SoFar(w, i, from, k + 1, before, below + more, visited + Elements(more),
                  traces + AddToPaths(ImportAt(w, i, from), down))
  {
    var here, current := ImportAt(w, i, from), TargetOf(w, i, from);
    AnalysedOneMore(w, here, current, k, before + {current}, below, traces, down, more);
    TracedOneMore(w, i, from, k, before, Elements(below), traces, down, Elements(more));
    ElementsOfConcatenation(below, more);
  }

  lemma NothingSoFar(w: Workspace, i: Import, from: Site, before: set<Document>, visited: set<Document>)
    requires IsSite(w, i, from) && TargetOf(w, i, from) in w && visited == before + {TargetOf(w, i, from)}
    ensures SoFar(w, i, from, 0, before, [], visited, [])
  {
    assert Elements<Document>([]) == {};
  }

  lemma VisitedGrows(w: Workspace, i: Import, from: Site, k: nat, before: set<Document>, below: seq<Document>,
                     visited: set<Document>, traces: seq<Trace>)
    requires IsSite(w, i, from) && TargetOf(w, i, from) in w && k <= |w[TargetOf(w, i, from)]|
    requires SoFar(w, i, from, k, before, below, visited, traces)
    ensures w.Keys - visited <= w.Keys - (before + {TargetOf(w, i, from)})
    ensures TargetOf(w, i, from) in visited
  {}

  /** One iteration of the loop over the imports of a document: adds what the k-th import leads to. */
  method AnalyzeNextImport(w: Workspace, here: Import, k: nat, visited: VisitedDocuments, before: seq<Trace>,
                           ghost i: Import, ghost from: Site, ghost visitedBefore: set<Document>,
                           ghost below: seq<Document>)
    returns (traces: seq<Trace>, ghost more: seq<Document>)
    requires Closed(w) && here.target.Some? && here.target.value in w && k < |w[here.target.value]|
    requires IsPlace(w, from) && here == ImportAt(w, i, from) && (from.In? ==> from.document in visitedBefore)
    requires here.target.value !in visitedBefore
    requires SoFar(w, i, from, k, visitedBefore, below, visited.uris, before)
    modifies visited
    ensures SoFar(w, i, from, k + 1, visitedBefore, below + more, visited.uris, traces)
    decreases w.Keys - visited.uris, 1
  {
    var further := w[here.target.value][k];
    VisitedGrows(w, i, from, k, visitedBefore, below, visited.uris, before);
    ghost var earlier := visited.uris;
    var down;
    down, more := AnalyzeImportChain(w, further, visited, i, In(here.target.value, k));
    OneMore(w, i, from, k, visitedBefore, below, earlier, before, down, more);
    traces := before + AddToPaths(here, down);
  }

  /** The loop over the imports of the document that has just been added. */
  method AnalyzeFurtherImports(w: Workspace, here: Import, visited: VisitedDocuments, ghost i: Import, ghost from: Site,
                               ghost before: set<Document>)
    returns (traces: seq<Trace>, ghost below: seq<Document>)
    requires Closed(w) && here.target.Some? && here.target.value in w
    requires IsPlace(w, from) && here == ImportAt(w, i, from) && (from.In? ==> from.document in before)
    requires here.target.value !in before && visited.uris == before + {here.target.value}
    modifies visited
    ensures SoFar(w, i, from, |w[here.target.value]|, before, below, visited.uris, traces)
    decreases w.Keys - visited.uris, 2
  {
    traces, below := [], [];
    NothingSoFar(w, i, from, before, visited.uris);
    for k := 0 to |w[here.target.value]|
      invariant SoFar(w, i, from, k, before, below, visited.uris, traces)
    {
      VisitedGrows(w, i, from, k, before, below, visited.uris, traces);
      ghost var more;
      traces, more := AnalyzeNextImport(w, here, k, visited, traces, i, from, before, below);
      below := below + more;
    }
  }

  // ---------------------------------------------------------------------------
  // What a cyclic trace means
  // ---------------------------------------------------------------------------

  /** The analysed import, and all resolved imports of documents that can be reached through it. */
  ghost predicate Traversed(w: Workspace, i: Import, s: Site) {
    i.target.Some? && IsSite(w, i, s) && (s.In? ==> Reaches(w, i.target.value, s.document))
  }

  ghost predicate SharedTarget(w: Workspace, i: Import, s: Site, s': Site) {
    s != s' && Traversed(w, i, s) && Traversed(w, i, s') && TargetOf(w, i, s) == TargetOf(w, i, s')
  }

  /** Some reachable document is the target of two traversed imports. */
  ghost predicate ImportedTwice(w: Workspace, i: Import) {
    exists s, s' :: SharedTarget(w, i, s, s')
  }

  /** The visited documents are exactly the reachable ones. */
  ghost predicate VisitedReachable(w: Workspace, i: Import, docs: seq<Document>) {
    && i.target.Some? && i.target.value in docs && DocumentsOf(w, docs)
    && AllReachedFrom(w, i.target.value, docs) && Explored(w, docs, Elements(docs))
  }

  lemma {:induction false} ReachableIsVisited(w: Workspace, i: Import, docs: seq<Document>, d: Document, n: nat)
    requires VisitedReachable(w, i, docs) && ReachesIn(w, i.target.value, d, n)
    ensures d in docs
    decreases n
  {
    if n > 0 {
      var q :| ReachesIn(w, i.target.value, q, n - 1) && ImportsDocument(w, q, d);
      ReachableIsVisited(w, i, docs, q, n - 1);
    }
  }

  function AllSites(w: Workspace, docs: seq<Document>): seq<Site>
    requires forall d :: d in docs ==> d in w
  {
    [Root] + SitesOf(w, docs)
  }

  lemma SitesAreTraversed(w: Workspace, i: Import, docs: seq<Document>, s: Site)
    requires VisitedReachable(w, i, docs)
    ensures s in AllSites(w, docs) <==> Traversed(w, i, s)
  {
    SitesOfMembers(w, docs, s);
    if Traversed(w, i, s) && s.In? {
      var n: nat :| ReachesIn(w, i.target.value, s.document, n);
      ReachableIsVisited(w, i, docs, s.document, n);
    }
  }

  lemma {:induction false} SitesInAreDistinct(w: Workspace, d: Document, n: nat)
    requires d in w && n <= |w[d]|
    ensures Distinct(SitesIn(w, d, n))
    decreases n
  {
    if n > 0 {
      SitesInAreDistinct(w, d, n - 1);
      SitesInMembers(w, d, n - 1, In(d, n - 1));
    }
  }

  lemma {:induction false} SitesAreDistinct(w: Workspace, docs: seq<Document>)
    requires DocumentsOf(w, docs)
    ensures Distinct(SitesOf(w, docs))
    decreases |docs|
  {
    if |docs| > 0 {
      var n := |docs| - 1;
      SplitLast(docs);
      SitesAreDistinct(w, docs[..n]);
      SitesInAreDistinct(w, docs[n], |w[docs[n]]|);
      assert docs[n] !in docs[..n];
      forall s | s in SitesOf(w, docs[..n]) ensures s !in SitesIn(w, docs[n], |w[docs[n]]|) {
        SitesOfMembers(w, docs[..n], s);
        SitesInMembers(w, docs[n], |w[docs[n]]|, s);
      }
      ElementsOfConcatenation(SitesOf(w, docs[..n]), SitesIn(w, docs[n], |w[docs[n]]|));
    }
  }

  ghost function Targets(w: Workspace, i: Import, sites: seq<Site>): (r: seq<Document>)
    requires forall s :: s in sites ==> IsSite(w, i, s)
    ensures |r| == |sites| && forall k :: 0 <= k < |r| ==> r[k] == TargetOf(w, i, sites[k])
  {
    seq(|sites|, k requires 0 <= k < |sites| => TargetOf(w, i, sites[k]))
  }

  lemma ReachedIsTarget(w: Workspace, i: Import, docs: seq<Document>, d: Document) returns (s: Site)
    requires VisitedReachable(w, i, docs) && d in docs
    ensures s in AllSites(w, docs) && IsSite(w, i, s) && TargetOf(w, i, s) == d
  {
    var n: nat :| ReachesIn(w, i.target.value, d, n);
    if n == 0 {
      s := Root;
    } else {
      var q :| ReachesIn(w, i.target.value, q, n - 1) && ImportsDocument(w, q, d);
      ReachableIsVisited(w, i, docs, q, n - 1);
      var k :| 0 <= k < |w[q]| && w[q][k].target == Some(d);
      s := In(q, k);
      SitesOfMembers(w, docs, s);
    }
  }

  /** The targets of the traversed imports are the reachable documents. */
  lemma TargetsAreVisited(w: Workspace, i: Import, docs: seq<Document>)
    requires VisitedReachable(w, i, docs)
    ensures forall s :: s in AllSites(w, docs) ==> IsSite(w, i, s)
    ensures Elements(Targets(w, i, AllSites(w, docs))) == Elements(docs)
  {
    var sites := AllSites(w, docs);
    forall s | s in sites ensures IsSite(w, i, s) && TargetOf(w, i, s) in docs {
      SitesAreTraversed(w, i, docs, s);
      if s.In? {
        SitesOfMembers(w, docs, s);
        assert ImportsDocument(w, s.document, TargetOf(w, i, s));
      }
    }
    forall d | d in docs ensures d in Targets(w, i, sites) {
      var s := ReachedIsTarget(w, i, docs, d);
      var k :| 0 <= k < |sites| && sites[k] == s;
      assert Targets(w, i, sites)[k] == d;
    }
  }

  lemma TargetsRepeatIff(w: Workspace, i: Import, docs: seq<Document>)
    requires VisitedReachable(w, i, docs) && forall s :: s in AllSites(w, docs) ==> IsSite(w, i, s)
    ensures Distinct(Targets(w, i, AllSites(w, docs))) <==> !ImportedTwice(w, i)
  {
    var sites := AllSites(w, docs);
    var targets := Targets(w, i, sites);
    SitesAreDistinct(w, docs);
    SitesOfMembers(w, docs, Root);
    ElementsOfConcatenation([Root], SitesOf(w, docs));
    if !Distinct(targets) {
      var k, l :| 0 <= k < l < |targets| && targets[k] == targets[l];
      SitesAreTraversed(w, i, docs, sites[k]);
      SitesAreTraversed(w, i, docs, sites[l]);
      assert SharedTarget(w, i, sites[k], sites[l]);
    }
    if ImportedTwice(w, i) {
      var s, s' :| SharedTarget(w, i, s, s');
      SitesAreTraversed(w, i, docs, s);
      SitesAreTraversed(w, i, docs, s');
      var k :| 0 <= k < |sites| && sites[k] == s;
      var l :| 0 <= l < |sites| && sites[l] == s';
      assert targets[k] == targets[l];
    }
  }

  /** Counting decides: as many cyclic traces as imports beyond one for each reachable document. */
  lemma CyclicIffImportedTwice(w: Workspace, i: Import, docs: seq<Document>, traces: seq<Trace>)
    requires VisitedReachable(w, i, docs) && Counted(w, i, docs, traces)
    ensures CountCyclic(traces) > 0 <==> ImportedTwice(w, i)
  {
    TargetsAreVisited(w, i, docs);
    TargetsRepeatIff(w, i, docs);
    ElementsOfDistinct(docs);
    ElementsOfDistinct(Targets(w, i, AllSites(w, docs)));
  }

  /** The path leads along imports to one that shares its target with another traversed import. */
  ghost predicate LeadsToRepetition(w: Workspace, i: Import, path: seq<Import>) {
    exists s, s' :: LeadsTo(w, i, Root, path, s) && SharedTarget(w, i, s, s')
  }

  lemma CyclicTraceLeadsToRepetition(w: Workspace, i: Import, docs: seq<Document>, t: Trace)
    requires VisitedReachable(w, i, docs) && t.isCyclic && IsTraceOf(w, i, Root, {}, Elements(docs), t)
    ensures LeadsToRepetition(w, i, t.path)
  {
    var s :| EndsAt(w, i, Root, {}, Elements(docs), t, s);
    var s' :| s' != s && InScope(Root, Elements(docs), s') && IsSite(w, i, s')
      && TargetOf(w, i, s') == TargetOf(w, i, s);
    assert SharedTarget(w, i, s, s');
  }

  /**
   * The check terminates on every workspace, and reports exactly if some reachable document is the
   * target of two traversed imports. The path it reports ends at such an import.
   */
  method CheckCyclicImportChain(w: Workspace, i: Import) returns (report: Option<seq<Import>>)
    requires Closed(w) && Resolves(w, i)
    ensures report.Some? <==> ImportedTwice(w, i)
    ensures report.Some? ==> LeadsToRepetition(w, i, report.value)
  {
    var visited := new VisitedDocuments();
    var traces, docs := AnalyzeImportChain(w, i, visited, i, Root);
    SomeCyclicIffCounted(traces);
    if i.target.Some? {
      assert {} + Elements(docs) == Elements(docs);
      CyclicIffImportedTwice(w, i, docs, traces);
    }
    var cycles := Filter((t: Trace) => t.isCyclic, traces);
    if |cycles| > 0 {
      var cycle := cycles[0];
      assert cycle in cycles;
      assert IsTraceOf(w, i, Root, {}, Elements(docs), cycle);
      CyclicTraceLeadsToRepetition(w, i, docs, cycle);
      return Some(cycle.path);
    }
    assert forall k :: 0 <= k < |traces| ==> traces[k] in traces;
    return None;
  }

  // ---------------------------------------------------------------------------
  // Reports and cycles
  // ---------------------------------------------------------------------------

  ghost predicate OnCycle(w: Workspace, d: Document) {
    exists p :: Reaches(w, d, p) && ImportsDocument(w, p, d)
  }

  lemma PredecessorIsOnCycle(w: Workspace, d: Document, p: Document)
    requires Reaches(w, d, p) && ImportsDocument(w, p, d)
    ensures OnCycle(w, p)
  {
    ImportReaches(w, p, d);
    var n: nat :| ReachesIn(w, d, p, n);
    if n > 0 {
      var q :| ReachesIn(w, d, q, n - 1) && ImportsDocument(w, q, p);
      ReachesIsTransitive(w, p, d, q);
    } else {
      assert ReachesIn(w, p, p, 0);
    }
  }

  lemma SiteOfImport(w: Workspace, i: Import, p: Document, d: Document) returns (s: Site)
    requires i.target.Some? && Reaches(w, i.target.value, p) && ImportsDocument(w, p, d)
    ensures s.In? && s.document == p && Traversed(w, i, s) && TargetOf(w, i, s) == d
  {
    var k :| 0 <= k < |w[p]| && w[p][k].target == Some(d);
    s := In(p, k);
  }

  lemma {:induction false} CycleIsEntered(w: Workspace, i: Import, d: Document, n: nat)
    requires i.target.Some? && ReachesIn(w, i.target.value, d, n) && OnCycle(w, d)
    ensures ImportedTwice(w, i)
    decreases n
  {
    var p :| Reaches(w, d, p) && ImportsDocument(w, p, d);
    assert Reaches(w, i.target.value, d);
    ReachesIsTransitive(w, i.target.value, d, p);
    var s := SiteOfImport(w, i, p, d);
    if n == 0 {
      assert SharedTarget(w, i, Root, s);
    } else {
      var q :| ReachesIn(w, i.target.value, q, n - 1) && ImportsDocument(w, q, d);
      assert Reaches(w, i.target.value, q);
      var s' := SiteOfImport(w, i, q, d);
      if p == q {
        PredecessorIsOnCycle(w, d, p);
        CycleIsEntered(w, i, q, n - 1);
      } else {
        assert SharedTarget(w, i, s, s');
      }
    }
  }

  /** Every import cycle that can be reached is reported. */
  lemma ReachableCyclesAreReported(w: Workspace, i: Import, d: Document)
    requires i.target.Some? && Reaches(w, i.target.value, d) && OnCycle(w, d)
    ensures ImportedTwice(w, i)
  {
    var n: nat :| ReachesIn(w, i.target.value, d, n);
    CycleIsEntered(w, i, d, n);
  }

  /** The converse fails: a document that two others import is reported although there is no cycle. */
  lemma DiamondsAreReportedToo()
    ensures var w: Workspace := map[
              0 := [Import(1, Some(1)), Import(2, Some(2))],
              1 := [Import(3, Some(3))], 2 := [Import(4, Some(3))], 3 := []];
            Closed(w) && ImportedTwice(w, Import(0, Some(0))) && forall d :: !OnCycle(w, d)
  {
    var w: Workspace := map[
      0 := [Import(1, Some(1)), Import(2, Some(2))], 1 := [Import(3, Some(3))], 2 := [Import(4, Some(3))], 3 := []];
    var i := Import(0, Some(0));
    assert w[0][0].target == Some(1) && w[0][1].target == Some(2);
    ImportReaches(w, 0, 1);
    ImportReaches(w, 0, 2);
    assert SharedTarget(w, i, In(1, 0), In(2, 0));
    forall d ensures !OnCycle(w, d) {
      if p :| Reaches(w, d, p) && ImportsDocument(w, p, d) {
        var n: nat :| ReachesIn(w, d, p, n);
        DiamondGoesUp(w, d, p, n);
      }
    }
  }

  lemma {:induction false} DiamondGoesUp(w: Workspace, a: Document, b: Document, n: nat)
    requires ReachesIn(w, a, b, n) && forall d, e :: ImportsDocument(w, d, e) ==> d < e
    ensures a <= b
    decreases n
  {
    if n > 0 {
      var q :| ReachesIn(w, a, q, n - 1) && ImportsDocument(w, q, b);
      DiamondGoesUp(w, a, q, n - 1);
    }
  }
}
