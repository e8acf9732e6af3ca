/**
 * Pipelines as lists of pipes between blocks: the topological sort that fixes the execution
 * order, and the validation that every block has at most one input.
 */
module Pipelines {
  import opened Common

  /** Identity of a block definition. */
  type Block = nat

  /** Two pipes are equal when they connect the same blocks. */
  datatype Pipe = Pipe(source: Block, target: Block)

  function OutgoingPipes(pipes: seq<Pipe>, b: Block): seq<Pipe> {
    Filter((p: Pipe) => p.source == b, pipes)
  }

  function IngoingPipes(pipes: seq<Pipe>, b: Block): seq<Pipe> {
    Filter((p: Pipe) => p.target == b, pipes)
  }

  function Targets(pipes: seq<Pipe>): (r: seq<Block>)
    ensures |r| == |pipes| && forall i :: 0 <= i < |r| ==> r[i] == pipes[i].target
    ensures forall p :: p in pipes ==> p.target in r
    ensures forall b :: b in r ==> exists p :: p in pipes && p.target == b
  {
    if |pipes| == 0 then [] else [pipes[0].target] + Targets(pipes[1..])
  }

  function Sources(pipes: seq<Pipe>): (r: seq<Block>)
    ensures |r| == |pipes| && forall i :: 0 <= i < |r| ==> r[i] == pipes[i].source
    ensures forall p :: p in pipes ==> p.source in r
    ensures forall b :: b in r ==> exists p :: p in pipes && p.source == b
  {
    if |pipes| == 0 then [] else [pipes[0].source] + Sources(pipes[1..])
  }

  function ChildBlocks(pipes: seq<Pipe>, b: Block): (r: seq<Block>)
    ensures forall c :: c in r <==> Pipe(b, c) in pipes
  {
    var out := OutgoingPipes(pipes, b);
    assert forall c :: Pipe(b, c) in pipes ==> Pipe(b, c) in out;
    assert forall p :: p in out ==> p == Pipe(b, p.target);
    Targets(out)
  }

  function ParentBlocks(pipes: seq<Pipe>, b: Block): (r: seq<Block>)
    ensures |r| == |IngoingPipes(pipes, b)|
    ensures forall a :: a in r <==> Pipe(a, b) in pipes
  {
    var ingoing := IngoingPipes(pipes, b);
    assert forall a :: Pipe(a, b) in pipes ==> Pipe(a, b) in ingoing;
    assert forall p :: p in ingoing ==> p == Pipe(p.source, b);
    Sources(ingoing)
  }

  /** The blocks on some pipe. */
  function Blocks(pipes: seq<Pipe>): (r: set<Block>)
    ensures forall p :: p in pipes ==> p.source in r && p.target in r
  {
    if |pipes| == 0 then {} else {pipes[0].source, pipes[0].target} + Blocks(pipes[1..])
  }

  lemma {:induction false} BlockIsOnPipe(pipes: seq<Pipe>, b: Block) returns (p: Pipe)
    requires b in Blocks(pipes)
    ensures p in pipes && (p.source == b || p.target == b)
    decreases |pipes|
  {
    if pipes[0].source == b || pipes[0].target == b {
      p := pipes[0];
    } else {
      p := BlockIsOnPipe(pipes[1..], b);
    }
  }

  ghost predicate HasParent(pipes: seq<Pipe>, b: Block) {
    exists p :: p in pipes && p.target == b
  }

  lemma ParentlessHasNoIngoing(pipes: seq<Pipe>, b: Block)
    ensures |IngoingPipes(pipes, b)| == 0 <==> !HasParent(pipes, b)
  {
    if |IngoingPipes(pipes, b)| > 0 {
      assert IngoingPipes(pipes, b)[0] in IngoingPipes(pipes, b);
    }
  }

  function StartingBlockPipes(pipes: seq<Pipe>): (r: seq<Pipe>)
    ensures forall p :: p in r <==> p in pipes && !HasParent(pipes, p.source)
  {
    assert forall b :: |IngoingPipes(pipes, b)| == 0 <==> !HasParent(pipes, b) by {
      forall b ensures |IngoingPipes(pipes, b)| == 0 <==> !HasParent(pipes, b) { ParentlessHasNoIngoing(pipes, b); }
    }
    Filter((p: Pipe) => |IngoingPipes(pipes, p.source)| == 0, pipes)
  }

  function StartingBlocks(pipes: seq<Pipe>): (r: seq<Block>)
    ensures Distinct(r)
    ensures forall b :: b in r <==> b in Blocks(pipes) && !HasParent(pipes, b)
  {
    assert forall b :: b in Blocks(pipes) && !HasParent(pipes, b) ==> b in Sources(StartingBlockPipes(pipes)) by {
      forall b | b in Blocks(pipes) && !HasParent(pipes, b) ensures b in Sources(StartingBlockPipes(pipes)) {
        var p := BlockIsOnPipe(pipes, b);
      }
    }
    Once(Sources(StartingBlockPipes(pipes)))
  }

  // ---------------------------------------------------------------------------
  // Walks and cycles
  // ---------------------------------------------------------------------------

  ghost predicate IsWalk(pipes: seq<Pipe>, w: seq<Block>) {
    |w| > 0 && forall i :: 0 <= i < |w| - 1 ==> Pipe(w[i], w[i + 1]) in pipes
  }

  ghost predicate IsCycle(pipes: seq<Pipe>, w: seq<Block>) {
    IsWalk(pipes, w) && |w| > 1 && w[0] == w[|w| - 1]
  }

  ghost predicate Acyclic(pipes: seq<Pipe>) {
    forall w :: !IsCycle(pipes, w)
  }

  // ---------------------------------------------------------------------------
  // Descendants: the measure of every recursion along pipes
  // ---------------------------------------------------------------------------

  ghost predicate WalkBetween(pipes: seq<Pipe>, a: Block, b: Block, w: seq<Block>) {
    IsWalk(pipes, w) && |w| > 1 && w[0] == a && w[|w| - 1] == b
  }

  ghost predicate Reaches(pipes: seq<Pipe>, a: Block, b: Block) {
    exists w :: WalkBetween(pipes, a, b, w)
  }

  ghost function Descendants(pipes: seq<Pipe>, a: Block): set<Block> {
    set b | b in Blocks(pipes) && Reaches(pipes, a, b)
  }

  lemma ChildReaches(pipes: seq<Pipe>, a: Block, c: Block, b: Block)
    requires Pipe(a, c) in pipes && (c == b || Reaches(pipes, c, b))
    ensures Reaches(pipes, a, b)
  {
    if c == b {
      assert WalkBetween(pipes, a, b, [a, b]);
    } else {
      var w :| WalkBetween(pipes, c, b, w);
      assert WalkBetween(pipes, a, b, [a] + w);
    }
  }

  lemma ReachesThroughChild(pipes: seq<Pipe>, a: Block, b: Block) returns (c: Block)
    requires Reaches(pipes, a, b)
    ensures Pipe(a, c) in pipes && (c == b || Reaches(pipes, c, b))
  {
    var w :| WalkBetween(pipes, a, b, w);
    c := w[1];
    assert Pipe(w[0], w[1]) in pipes;
    if |w| > 2 {
      assert WalkBetween(pipes, c, b, w[1..]);
    }
  }

  lemma ReachedByChain(pipes: seq<Pipe>, a: Block, b: Block, c: Block)
    requires Reaches(pipes, a, b) && Reaches(pipes, b, c)
    ensures Reaches(pipes, a, c)
  {
    var v :| WalkBetween(pipes, a, b, v);
    var w :| WalkBetween(pipes, b, c, w);
    assert WalkBetween(pipes, a, c, v + w[1..]);
  }

  lemma AcyclicNeverReturns(pipes: seq<Pipe>, a: Block)
    requires Acyclic(pipes)
    ensures !Reaches(pipes, a, a)
  {
    if Reaches(pipes, a, a) {
      var w :| WalkBetween(pipes, a, a, w);
      assert IsCycle(pipes, w);
    }
  }

  lemma ChildIsLower(pipes: seq<Pipe>, a: Block, c: Block)
    requires Pipe(a, c) in pipes && !Reaches(pipes, c, c)
    ensures Descendants(pipes, c) < Descendants(pipes, a)
  {
    forall b | b in Descendants(pipes, c) ensures b in Descendants(pipes, a) {
      ChildReaches(pipes, a, c, b);
    }
    ChildReaches(pipes, a, c, c);
    assert c in Descendants(pipes, a) && c !in Descendants(pipes, c);
  }

  lemma ChildHasFewerDescendants(pipes: seq<Pipe>, a: Block, c: Block)
    requires Acyclic(pipes) && Pipe(a, c) in pipes
    ensures Descendants(pipes, c) < Descendants(pipes, a)
  {
    AcyclicNeverReturns(pipes, c);
    ChildIsLower(pipes, a, c);
  }

  ghost predicate Below(pipes: seq<Pipe>, a: Block, b: Block) {
    a == b || Reaches(pipes, a, b)
  }

  // ---------------------------------------------------------------------------
  // Kahn's topological sort
  // ---------------------------------------------------------------------------

  /** Every block on some pipe exactly once, sources before targets. */
  ghost predicate TopologicalOrder(pipes: seq<Pipe>, order: seq<Block>) {
    Distinct(order) && ParentsFirstListing(pipes, order)
  }

  /** Every block on some pipe, sources before targets. */
  ghost predicate ParentsFirstListing(pipes: seq<Pipe>, order: seq<Block>) {
    && OnceEach(pipes, order)
    && (forall b :: b in order <==> b in Blocks(pipes))
    && ParentsFirst(pipes, order)
  }

  /** Blocks without parents are listed once; only where two pipes are equal are others listed more often. */
  ghost predicate OnceEach(pipes: seq<Pipe>, s: seq<Block>) {
    && (Distinct(pipes) ==> Distinct(s))
    && forall i, j {:trigger HasParent(pipes, s[i]), s[j]} ::
         0 <= i < j < |s| && s[i] == s[j] ==> HasParent(pipes, s[i])
  }

  ghost predicate ParentsFirst(pipes: seq<Pipe>, order: seq<Block>) {
    forall p, j :: p in pipes && 0 <= j < |order| && order[j] == p.target ==> p.source in order[..j]
  }

  lemma {:induction false} WalksFollowOrder(pipes: seq<Pipe>, order: seq<Block>, w: seq<Block>, j: nat)
    requires ParentsFirst(pipes, order) && IsWalk(pipes, w) && |w| > 1
    requires j < |order| && order[j] == w[|w| - 1]
    ensures w[0] in order[..j]
    decreases |w|
  {
    var n := |w| - 1;
    assert Pipe(w[n - 1], w[n]) in pipes;
    var i :| 0 <= i < j && order[i] == w[n - 1];
    if |w| > 2 {
      WalksFollowOrder(pipes, order, w[..n], i);
      assert order[..i] <= order[..j];
    }
  }

  lemma FirstOccurrence(s: seq<Block>, b: Block) returns (j: nat)
    requires b in s
    ensures j < |s| && s[j] == b && b !in s[..j]
  {
    j :| 0 <= j < |s| && s[j] == b;
    while b in s[..j]
      invariant j < |s| && s[j] == b
      decreases j
    {
      var i :| 0 <= i < j && s[..j][i] == b;
      j := i;
    }
  }

  lemma OrderedIsAcyclic(pipes: seq<Pipe>, order: seq<Block>)
    requires ParentsFirstListing(pipes, order)
    ensures Acyclic(pipes)
  {
    forall w ensures !IsCycle(pipes, w) {
      if IsCycle(pipes, w) {
        var n := |w| - 1;
        assert Pipe(w[n - 1], w[n]) in pipes;
        var j := FirstOccurrence(order, w[n]);
        WalksFollowOrder(pipes, order, w, j);
      }
    }
  }

  lemma ChildrenAreDistinct(pipes: seq<Pipe>, b: Block)
    requires Distinct(pipes)
    ensures Distinct(ChildBlocks(pipes, b))
  {
    var out := OutgoingPipes(pipes, b);
    FilterIsDistinct((p: Pipe) => p.source == b, pipes);
    forall i, j | 0 <= i < j < |out| ensures out[i].target != out[j].target {
      assert out[i] in out && out[j] in out;
    }
  }

  ghost predicate ParentsIn(pipes: seq<Pipe>, b: Block, blocks: seq<Block>) {
    forall p :: p in pipes && p.target == b ==> p.source in blocks
  }

  /** Reached blocks are exactly those all of whose parents are sorted. */
  ghost predicate Frontier(pipes: seq<Pipe>, sorted: seq<Block>, current: seq<Block>) {
    && OnceEach(pipes, sorted + current)
    && (forall b :: b in sorted + current <==> b in Blocks(pipes) && ParentsIn(pipes, b, sorted))
    && ParentsFirst(pipes, sorted)
  }

  /** While the children of `node` are visited: besides those reached before, the `done` ones may have been reached. */
  ghost predicate ReachedBlocks(pipes: seq<Pipe>, sorted: seq<Block>, node: Block, done: seq<Block>,
                                current: seq<Block>) {
    && OnceEach(pipes, sorted + [node] + current)
    && (forall b :: b in sorted + [node] + current <==>
          && b in Blocks(pipes)
          && (ParentsIn(pipes, b, sorted) || (b in done && ParentsIn(pipes, b, sorted + [node]))))
  }

  ghost predicate RemainingPipes(pipes: seq<Pipe>, sorted: seq<Block>, node: Block, done: seq<Block>,
                                 edges: seq<Pipe>) {
    forall p :: p in edges <==> p in pipes && p.source !in sorted && !(p.source == node && p.target in done)
  }

  /** The lists hold the same blocks at other positions. */
  ghost predicate Permuted(s: seq<Block>, t: seq<Block>) {
    |s| == |t| && exists f: nat -> nat :: Moves(s, t, f)
  }

  ghost predicate Moves(s: seq<Block>, t: seq<Block>, f: nat -> nat) {
    && (forall i: nat :: i < |t| ==> f(i) < |s| && s[f(i)] == t[i])
    && (forall i: nat, j: nat :: i < j < |t| ==> f(i) != f(j))
  }

  lemma NodeToTheFront(sorted: seq<Block>, current: seq<Block>, node: Block)
    ensures Permuted(sorted + (current + [node]), sorted + [node] + current)
  {
    var k, n := |sorted|, |sorted| + |current|;
    var f := (i: nat) => if i < k then i else if i == k then n else (i - 1) as nat;
    assert Moves(sorted + (current + [node]), sorted + [node] + current, f);
  }

  lemma MovedOnceEach(pipes: seq<Pipe>, s: seq<Block>, t: seq<Block>)
    requires OnceEach(pipes, s) && Permuted(s, t)
    ensures OnceEach(pipes, t)
  {
    var f :| Moves(s, t, f);
    forall i: nat, j: nat | i < j < |t| && t[i] == t[j] ensures !Distinct(pipes) && HasParent(pipes, t[i]) {
      assert f(i) < f(j) || f(j) < f(i);
    }
  }

  lemma StartVisiting(pipes: seq<Pipe>, sorted: seq<Block>, node: Block, current: seq<Block>, unvisited: seq<Pipe>)
    requires Frontier(pipes, sorted, current + [node])
    requires forall p :: p in unvisited <==> p in pipes && p.source !in sorted
    ensures ReachedBlocks(pipes, sorted, node, [], current)
    ensures RemainingPipes(pipes, sorted, node, [], unvisited)
    ensures ParentsFirst(pipes, sorted + [node])
  {
    var before, after := sorted + (current + [node]), sorted + [node] + current;
    assert forall b :: b in before <==> b in after;
    NodeToTheFront(sorted, current, node);
    MovedOnceEach(pipes, before, after);
    assert node in before;
    forall p, j | p in pipes && 0 <= j < |sorted + [node]| && (sorted + [node])[j] == p.target
      ensures p.source in (sorted + [node])[..j]
    {
      if j < |sorted| {
        assert (sorted + [node])[..j] == sorted[..j];
      } else {
        assert (sorted + [node])[..j] == sorted;
      }
    }
  }

  lemma FinishVisiting(pipes: seq<Pipe>, sorted: seq<Block>, node: Block, current: seq<Block>, unvisited: seq<Pipe>)
    requires ReachedBlocks(pipes, sorted, node, ChildBlocks(pipes, node), current)
    requires RemainingPipes(pipes, sorted, node, ChildBlocks(pipes, node), unvisited)
    requires ParentsFirst(pipes, sorted + [node])
    ensures Frontier(pipes, sorted + [node], current)
    ensures forall p :: p in unvisited <==> p in pipes && p.source !in sorted + [node]
  {
    var children := ChildBlocks(pipes, node);
    forall b | ParentsIn(pipes, b, sorted + [node]) && !ParentsIn(pipes, b, sorted) ensures b in children {
      var p :| p in pipes && p.target == b && p.source !in sorted;
      assert p == Pipe(node, b);
    }
  }

  lemma NotAmongEarlier(before: seq<Block>, b: Block, after: seq<Block>)
    requires Distinct(before + [b] + after)
    ensures b !in before
  {
    var all := before + [b] + after;
    assert all[|before|] == b && forall i :: 0 <= i < |before| ==> all[i] == before[i];
  }

  /** If no two pipes are equal, a child is visited once. */
  lemma ChildIsNew(pipes: seq<Pipe>, sorted: seq<Block>, node: Block, done: seq<Block>, child: Block,
                   current: seq<Block>)
    requires Distinct(pipes) && Pipe(node, child) in pipes && child !in done
    requires ReachedBlocks(pipes, sorted, node, done, current)
    ensures child !in sorted + [node] + current
  {
    NotAmongEarlier(sorted, node, current);
  }

  /** A child is queued exactly when all its parents are sorted. */
  lemma VisitChild(pipes: seq<Pipe>, sorted: seq<Block>, node: Block, done: seq<Block>, child: Block,
                   current: seq<Block>)
    requires Pipe(node, child) in pipes && (Distinct(pipes) ==> child !in done)
    requires ReachedBlocks(pipes, sorted, node, done, current)
    ensures ReachedBlocks(pipes, sorted, node, done + [child],
                          if ParentsIn(pipes, child, sorted + [node]) then current + [child] else current)
  {
    if ParentsIn(pipes, child, sorted + [node]) {
      if Distinct(pipes) { ChildIsNew(pipes, sorted, node, done, child, current); }
      var before := sorted + [node] + current;
      assert sorted + [node] + (current + [child]) == before + [child];
      forall i, j | 0 <= i < j < |before + [child]| && (before + [child])[i] == (before + [child])[j]
        ensures HasParent(pipes, (before + [child])[i])
      {
        if j == |before| { assert Pipe(node, child).target == child; }
      }
    }
  }

  /** Marks the pipes from a node to its child as visited. */
  function MarkVisited(pipes: seq<Pipe>, edges: seq<Pipe>, node: Block, child: Block): (r: seq<Pipe>)
    requires Pipe(node, child) in pipes
    ensures forall p :: p in r <==> p in edges && p != Pipe(node, child)
    ensures Pipe(node, child) in edges ==> |r| < |edges|
    ensures |r| <= |edges|
  {
    var visited := Filter((e: Pipe) => e.source == node, IngoingPipes(pipes, child));
    assert forall e :: e in visited <==> e == Pipe(node, child);
    if Pipe(node, child) in edges then
      FilterDrops((e: Pipe) => e !in visited, edges, Pipe(node, child));
      Filter((e: Pipe) => e !in visited, edges)
    else
      Filter((e: Pipe) => e !in visited, edges)
  }

  predicate AllIngoingVisited(pipes: seq<Pipe>, edges: seq<Pipe>, child: Block)
    ensures AllIngoingVisited(pipes, edges, child) <==> forall p :: p in pipes && p.target == child ==> p !in edges
  {
    var notRemoved := Filter((e: Pipe) => e in edges, IngoingPipes(pipes, child));
    assert |notRemoved| > 0 ==> notRemoved[0] in notRemoved;
    |notRemoved| == 0
  }

  ghost predicate Unvisited(pipes: seq<Pipe>, sorted: seq<Block>, edges: seq<Pipe>) {
    forall p :: p in edges <==> p in pipes && p.source !in sorted
  }

  lemma QueuedIffParentsSorted(pipes: seq<Pipe>, sorted: seq<Block>, node: Block, done: seq<Block>, child: Block,
                               edges: seq<Pipe>)
    requires RemainingPipes(pipes, sorted, node, done, edges) && child in done
    ensures AllIngoingVisited(pipes, edges, child) <==> ParentsIn(pipes, child, sorted + [node])
  {}

  // ---------------------------------------------------------------------------
  // How often a block is listed
  // ---------------------------------------------------------------------------

  /** How often visiting a node queues a block: once for every pipe to it, if all its parents are sorted then. */
  ghost function QueuedBy(pipes: seq<Pipe>, sorted: seq<Block>, node: Block, b: Block): nat {
    if ParentsIn(pipes, b, sorted + [node]) then multiset(ChildBlocks(pipes, node))[b] else 0
  }

  /** How often the blocks of the list, visited in this order, queue a block. */
  ghost function Queued(pipes: seq<Pipe>, sorted: seq<Block>, b: Block): nat {
    if |sorted| == 0 then 0
    else
      var n := |sorted| - 1;
      Queued(pipes, sorted[..n], b) + QueuedBy(pipes, sorted[..n], sorted[n], b)
  }

  /** Blocks get into the lists as starting blocks or by being queued. */
  ghost predicate CountsAreExact(pipes: seq<Pipe>, sorted: seq<Block>, current: seq<Block>) {
    forall b :: multiset(sorted + current)[b] == multiset(StartingBlocks(pipes))[b] + Queued(pipes, sorted, b)
  }

  /** The part of it while the children of a node are visited. */
  ghost predicate ChildrenCounted(pipes: seq<Pipe>, sorted: seq<Block>, node: Block, done: seq<Block>,
                                  nodes: seq<Block>, current: seq<Block>) {
    forall b :: multiset(current)[b]
             == multiset(nodes)[b] + if ParentsIn(pipes, b, sorted + [node]) then multiset(done)[b] else 0
  }

  lemma ChildCounted(pipes: seq<Pipe>, sorted: seq<Block>, node: Block, done: seq<Block>, nodes: seq<Block>,
                     current: seq<Block>, child: Block)
    requires ChildrenCounted(pipes, sorted, node, done, nodes, current)
    ensures ChildrenCounted(pipes, sorted, node, done + [child], nodes,
                            if ParentsIn(pipes, child, sorted + [node]) then current + [child] else current)
  {}

  lemma VisitCounted(pipes: seq<Pipe>, sorted: seq<Block>, node: Block, nodes: seq<Block>, current: seq<Block>)
    requires CountsAreExact(pipes, sorted, nodes + [node])
    requires ChildrenCounted(pipes, sorted, node, ChildBlocks(pipes, node), nodes, current)
    ensures CountsAreExact(pipes, sorted + [node], current)
  {
    assert (sorted + [node])[..|sorted|] == sorted;
    forall b
      ensures multiset(sorted + [node] + current)[b]
           == multiset(StartingBlocks(pipes))[b] + Queued(pipes, sorted + [node], b)
    {
      assert multiset(sorted + (nodes + [node]))[b]
          == multiset(StartingBlocks(pipes))[b] + Queued(pipes, sorted, b);
      assert multiset(current)[b] == multiset(nodes)[b] + QueuedBy(pipes, sorted, node, b);
    }
  }

  /** A block with one parent is listed as often as the parent is, times the number of pipes between them. */
  lemma OneParentMultiplies(pipes: seq<Pipe>, order: seq<Block>, a: Block, b: Block)
    requires CountsAreExact(pipes, order, []) && Pipe(a, b) in pipes
    requires forall p :: p in pipes && p.target == b ==> p.source == a
    ensures multiset(order)[b] == Times(multiset(order)[a], multiset(ChildBlocks(pipes, a))[b])
  {
    assert order + [] == order;
    assert HasParent(pipes, b) && b !in StartingBlocks(pipes);
    QueuedByOneParent(pipes, order, a, b);
  }

  lemma QueuedByOnlyParent(pipes: seq<Pipe>, sorted: seq<Block>, node: Block, a: Block, b: Block)
    requires forall p :: p in pipes && p.target == b ==> p.source == a
    ensures QueuedBy(pipes, sorted, node, b) == if node == a then multiset(ChildBlocks(pipes, a))[b] else 0
  {
    if node == a {
      assert a in sorted + [node];
    } else {
      assert b !in ChildBlocks(pipes, node);
    }
  }

  lemma CountLast(s: seq<Block>, b: Block)
    requires |s| > 0
    ensures var n := |s| - 1; multiset(s)[b] == multiset(s[..n])[b] + if s[n] == b then 1 else 0
  {
    SplitLast(s);
  }

  /** The product, by repeated addition. */
  ghost function Times(n: nat, k: nat): nat { if n == 0 then 0 else Times(n - 1, k) + k }

  lemma {:induction false} QueuedByOneParent(pipes: seq<Pipe>, sorted: seq<Block>, a: Block, b: Block)
    requires forall p :: p in pipes && p.target == b ==> p.source == a
    ensures Queued(pipes, sorted, b) == Times(multiset(sorted)[a], multiset(ChildBlocks(pipes, a))[b])
    decreases |sorted|
  {
    if |sorted| > 0 {
      var n := |sorted| - 1;
      QueuedByOneParent(pipes, sorted[..n], a, b);
      QueuedByOnlyParent(pipes, sorted[..n], sorted[n], a, b);
      CountLast(sorted, a);
      var earlier, k := multiset(sorted[..n])[a], multiset(ChildBlocks(pipes, a))[b];
      assert Queued(pipes, sorted, b) == Times(earlier, k) + if sorted[n] == a then k else 0;
      assert Times(earlier + 1, k) == Times(earlier, k) + k;
    } else {
      assert sorted == [];
    }
  }

  // ---------------------------------------------------------------------------
  // Termination: how often blocks can still be taken from the worklist
  // ---------------------------------------------------------------------------

  /** No cycle leads to the block. */
  ghost predicate OffCycles(pipes: seq<Pipe>, b: Block) {
    forall a :: Below(pipes, a, b) ==> !Reaches(pipes, a, a)
  }

  lemma ListedNeverReturns(pipes: seq<Pipe>, order: seq<Block>, a: Block)
    requires ParentsFirst(pipes, order) && a in order
    ensures !Reaches(pipes, a, a)
  {
    if Reaches(pipes, a, a) {
      var w :| WalkBetween(pipes, a, a, w);
      var j := FirstOccurrence(order, a);
      WalksFollowOrder(pipes, order, w, j);
    }
  }

  lemma AncestorIsListed(pipes: seq<Pipe>, order: seq<Block>, a: Block, b: Block)
    requires ParentsFirst(pipes, order) && ParentsIn(pipes, b, order) && Reaches(pipes, a, b)
    ensures a in order
  {
    var w :| WalkBetween(pipes, a, b, w);
    var n := |w| - 1;
    assert Pipe(w[n - 1], w[n]) in pipes;
    if n > 1 {
      var j :| 0 <= j < |order| && order[j] == w[n - 1];
      WalksFollowOrder(pipes, order, w[..n], j);
    }
  }

  lemma ReachedIsOffCycles(pipes: seq<Pipe>, order: seq<Block>, b: Block)
    requires ParentsFirst(pipes, order) && ParentsIn(pipes, b, order)
    ensures OffCycles(pipes, b)
  {
    forall a | Below(pipes, a, b) ensures !Reaches(pipes, a, a) {
      if Reaches(pipes, a, a) {
        if a != b { AncestorIsListed(pipes, order, a, b); } else { AncestorIsListed(pipes, order, b, b); }
        ListedNeverReturns(pipes, order, a);
      }
    }
  }

  /** The number of blocks that taking this one can bring to the worklist, counting it and repetitions. */
  ghost function Weight(pipes: seq<Pipe>, b: Block): nat
    requires OffCycles(pipes, b)
    decreases Descendants(pipes, b), 1, 0
  {
    1 + ChildrenWeight(pipes, b, |ChildBlocks(pipes, b)|)
  }

  ghost function ChildrenWeight(pipes: seq<Pipe>, b: Block, n: nat): nat
    requires OffCycles(pipes, b) && n <= |ChildBlocks(pipes, b)|
    decreases Descendants(pipes, b), 0, n
  {
    if n == 0 then 0
    else
      var child := ChildBlocks(pipes, b)[n - 1];
      ChildrenWeight(pipes, b, n - 1)
      + (if OffCycles(pipes, child) then ChildStep(pipes, b, child); Weight(pipes, child) else 0)
  }

  lemma ChildStep(pipes: seq<Pipe>, b: Block, child: Block)
    requires child in ChildBlocks(pipes, b) && OffCycles(pipes, child)
    ensures Descendants(pipes, child) < Descendants(pipes, b)
  {
    assert Below(pipes, child, child);
    ChildIsLower(pipes, b, child);
  }

  ghost predicate AllOffCycles(pipes: seq<Pipe>, s: seq<Block>) { forall b :: b in s ==> OffCycles(pipes, b) }

  ghost function Total(pipes: seq<Pipe>, s: seq<Block>): nat
    requires AllOffCycles(pipes, s)
  {
    if |s| == 0 then 0 else Total(pipes, s[..|s| - 1]) + Weight(pipes, s[|s| - 1])
  }

  lemma TotalOneMore(pipes: seq<Pipe>, s: seq<Block>, b: Block)
    requires AllOffCycles(pipes, s) && OffCycles(pipes, b)
    ensures AllOffCycles(pipes, s + [b]) && Total(pipes, s + [b]) == Total(pipes, s) + Weight(pipes, b)
  {
    assert (s + [b])[..|s|] == s;
  }

  lemma FrontierIsOffCycles(pipes: seq<Pipe>, sorted: seq<Block>, current: seq<Block>)
    requires Frontier(pipes, sorted, current)
    ensures AllOffCycles(pipes, current)
  {
    forall b | b in current ensures OffCycles(pipes, b) {
      assert b in sorted + current;
      ReachedIsOffCycles(pipes, sorted, b);
    }
  }

  /** Queueing a child uses up its share of the weight of its parent. */
  lemma QueueChild(pipes: seq<Pipe>, sorted: seq<Block>, node: Block, c: nat, nodes: seq<Block>, current: seq<Block>)
    requires OffCycles(pipes, node) && c < |ChildBlocks(pipes, node)| && ParentsFirst(pipes, sorted + [node])
    requires AllOffCycles(pipes, nodes) && AllOffCycles(pipes, current)
    requires Total(pipes, current) <= Total(pipes, nodes) + ChildrenWeight(pipes, node, c)
    ensures var child := ChildBlocks(pipes, node)[c];
            var after := if ParentsIn(pipes, child, sorted + [node]) then current + [child] else current;
            AllOffCycles(pipes, after) && Total(pipes, after) <= Total(pipes, nodes)
              + ChildrenWeight(pipes, node, c + 1)
  {
    var child := ChildBlocks(pipes, node)[c];
    if ParentsIn(pipes, child, sorted + [node]) {
      ReachedIsOffCycles(pipes, sorted + [node], child);
      TotalOneMore(pipes, current, child);
    }
  }

  // ---------------------------------------------------------------------------
  // The sort
  // ---------------------------------------------------------------------------

  /** The inner loop: every pipe to a child is marked visited, and children without unvisited pipes are queued. */
  method VisitChildren(pipes: seq<Pipe>, ghost sorted: seq<Block>, node: Block, nodes: seq<Block>, edges: seq<Pipe>)
    returns (currentNodes: seq<Block>, unvisitedEdges: seq<Pipe>)
    requires Frontier(pipes, sorted, nodes + [node]) && Unvisited(pipes, sorted, edges)
    ensures ChildrenCounted(pipes, sorted, node, ChildBlocks(pipes, node), nodes, currentNodes)
    ensures Frontier(pipes, sorted + [node], currentNodes) && Unvisited(pipes, sorted + [node], unvisitedEdges)
    ensures AllOffCycles(pipes, nodes + [node]) && AllOffCycles(pipes, currentNodes)
    ensures Total(pipes, currentNodes) < Total(pipes, nodes + [node])
  {
    StartVisiting(pipes, sorted, node, nodes, edges);
    FrontierIsOffCycles(pipes, sorted, nodes + [node]);
    assert node in nodes + [node] && forall b :: b in nodes ==> b in nodes + [node];
    TotalOneMore(pipes, nodes, node);
    currentNodes, unvisitedEdges := nodes, edges;
    var children := ChildBlocks(pipes, node);
    if Distinct(pipes) { ChildrenAreDistinct(pipes, node); }
    for c := 0 to |children|
      invariant ReachedBlocks(pipes, sorted, node, children[..c], currentNodes)
      invariant RemainingPipes(pipes, sorted, node, children[..c], unvisitedEdges)
      invariant ChildrenCounted(pipes, sorted, node, children[..c], nodes, currentNodes)
      invariant AllOffCycles(pipes, currentNodes)
      invariant Total(pipes, currentNodes) <= Total(pipes, nodes) + ChildrenWeight(pipes, node, c)
    {
      var childNode := children[c];
      assert childNode in children;
      VisitChild(pipes, sorted, node, children[..c], childNode, currentNodes);
      QueueChild(pipes, sorted, node, c, nodes, currentNodes);
      ChildCounted(pipes, sorted, node, children[..c], nodes, currentNodes, childNode);
      TakeOneMore(children, c);
      unvisitedEdges := MarkVisited(pipes, unvisitedEdges, node, childNode);
      QueuedIffParentsSorted(pipes, sorted, node, children[..c + 1], childNode, unvisitedEdges);
      if AllIngoingVisited(pipes, unvisitedEdges, childNode) {
        currentNodes := currentNodes + [childNode];
      }
    }
    assert children[..|children|] == children;
    FinishVisiting(pipes, sorted, node, currentNodes, unvisitedEdges);
  }

  /**
   * The sort; None is its failed assertion that no pipe is left unvisited. Where two pipes are equal, the
   * block they lead to may be listed, and so executed, more than once; the counts say how often.
   */
  method TopologicalSorting(pipes: seq<Pipe>) returns (r: Option<seq<Block>>)
    ensures r.Some? <==> Acyclic(pipes)
    ensures r.Some? ==> ParentsFirstListing(pipes, r.value) && CountsAreExact(pipes, r.value, [])
    ensures r.Some? && Distinct(pipes) ==> TopologicalOrder(pipes, r.value)
  {
    var sortedNodes: seq<Block> := [];
    var currentNodes := StartingBlocks(pipes);
    var unvisitedEdges := pipes;
    StartFrontier(pipes);
    FrontierIsOffCycles(pipes, [], currentNodes);
    while |currentNodes| > 0
      invariant Frontier(pipes, sortedNodes, currentNodes) && CountsAreExact(pipes, sortedNodes, currentNodes)
      invariant Unvisited(pipes, sortedNodes, unvisitedEdges)
      invariant AllOffCycles(pipes, currentNodes)
      decreases Total(pipes, currentNodes)
    {
      var node := currentNodes[|currentNodes| - 1];
      SplitLast(currentNodes);
      currentNodes := currentNodes[..|currentNodes| - 1];
      ghost var nodes := currentNodes;
      currentNodes, unvisitedEdges := VisitChildren(pipes, sortedNodes, node, currentNodes, unvisitedEdges);
      VisitCounted(pipes, sortedNodes, node, nodes, currentNodes);
      sortedNodes := sortedNodes + [node];
    }
    assert currentNodes == [];
    if |unvisitedEdges| > 0 {
      UnvisitedMeansCycle(pipes, sortedNodes, unvisitedEdges[0]);
      return None;
    }
    AllVisitedMeansSorted(pipes, sortedNodes);
    return Some(sortedNodes);
  }

  lemma StartFrontier(pipes: seq<Pipe>)
    ensures Frontier(pipes, [], StartingBlocks(pipes)) && CountsAreExact(pipes, [], StartingBlocks(pipes))
  {
    assert [] + StartingBlocks(pipes) == StartingBlocks(pipes);
    forall b ensures HasParent(pipes, b) <==> !ParentsIn(pipes, b, []) {}
  }

  lemma AllVisitedMeansSorted(pipes: seq<Pipe>, sorted: seq<Block>)
    requires Frontier(pipes, sorted, []) && forall p :: p in pipes ==> p.source in sorted
    ensures ParentsFirstListing(pipes, sorted) && Acyclic(pipes)
  {
    assert sorted + [] == sorted;
    forall b | b in Blocks(pipes) ensures ParentsIn(pipes, b, sorted) {}
    OrderedIsAcyclic(pipes, sorted);
  }

  /** What a stuck sort leaves behind. */
  ghost predicate Unsorted(pipes: seq<Pipe>, sorted: seq<Block>, b: Block) {
    b in Blocks(pipes) && b !in sorted
  }

  lemma UnsortedParent(pipes: seq<Pipe>, sorted: seq<Block>, b: Block) returns (a: Block)
    requires Frontier(pipes, sorted, []) && Unsorted(pipes, sorted, b)
    ensures Pipe(a, b) in pipes && Unsorted(pipes, sorted, a)
  {
    assert sorted + [] == sorted;
    var p :| p in pipes && p.target == b && p.source !in sorted;
    a := p.source;
  }

  /** Walking backwards over unsorted blocks must run into a cycle. */
  lemma {:induction false} WalkingBackFindsCycle(pipes: seq<Pipe>, sorted: seq<Block>, w: seq<Block>)
    requires Frontier(pipes, sorted, [])
    requires IsWalk(pipes, w) && forall i :: 0 <= i < |w| ==> Unsorted(pipes, sorted, w[i])
    ensures !Acyclic(pipes)
    decreases Blocks(pipes) - (set b | b in w)
  {
    var a := UnsortedParent(pipes, sorted, w[0]);
    var longer := [a] + w;
    assert IsWalk(pipes, longer);
    if i :| 0 <= i < |w| && w[i] == a {
      assert IsCycle(pipes, longer[..i + 2]);
    } else {
      assert (set b | b in longer) == (set b | b in w) + {a};
      assert a in Blocks(pipes) - (set b | b in w);
      WalkingBackFindsCycle(pipes, sorted, longer);
    }
  }

  lemma UnvisitedMeansCycle(pipes: seq<Pipe>, sorted: seq<Block>, p: Pipe)
    requires Frontier(pipes, sorted, []) && p in pipes && p.source !in sorted
    ensures !Acyclic(pipes)
  {
    WalkingBackFindsCycle(pipes, sorted, [p.source]);
  }

  lemma StartCount(pipes: seq<Pipe>, order: seq<Block>, b: Block)
    requires ParentsFirstListing(pipes, order) && b in StartingBlocks(pipes)
    ensures multiset(order)[b] == 1
  {
    assert !HasParent(pipes, b);
    var j := FirstOccurrence(order, b);
    forall i | j < i < |order| ensures order[i] != b {
      assert order[j] == b;
    }
    OneOccurrence(order, j);
  }

  lemma OneOccurrence(s: seq<Block>, j: nat)
    requires j < |s| && forall i :: 0 <= i < |s| && i != j ==> s[i] != s[j]
    ensures multiset(s)[s[j]] == 1
  {
    assert s == s[..j] + [s[j]] + s[j + 1..];
    assert s[j] !in s[..j] && s[j] !in s[j + 1..];
  }

  lemma TwoEqualPipes(p: Pipe)
    requires p.source != p.target
    ensures p.source in StartingBlocks([p, p])
    ensures forall b :: b in Blocks([p, p]) ==> b == p.source || b == p.target
    ensures multiset(ChildBlocks([p, p], p.source))[p.target] == 2
  {
    assert [p, p][1..] == [p] && [p][1..] == [];
    assert Blocks([p]) == {p.source, p.target};
    assert OutgoingPipes([p], p.source) == [p];
    assert OutgoingPipes([p, p], p.source) == [p, p];
    assert Targets([p]) == [p.target] && Targets([p, p]) == [p.target, p.target];
  }

  lemma {:induction false} CountTwoValues(s: seq<Block>, a: Block, b: Block)
    requires a != b && forall i :: 0 <= i < |s| ==> s[i] == a || s[i] == b
    ensures |s| == multiset(s)[a] + multiset(s)[b]
    decreases |s|
  {
    if |s| > 0 {
      CountTwoValues(s[..|s| - 1], a, b);
      CountLast(s, a);
      CountLast(s, b);
    } else {
      assert s == [];
    }
  }

  lemma OnceThenTwice(s: seq<Block>, a: Block, b: Block)
    requires a != b && forall i :: 0 <= i < |s| ==> s[i] == a || s[i] == b
    requires multiset(s)[a] == 1 && multiset(s)[b] == 2 && (|s| > 0 ==> s[0] == a)
    ensures s == [a, b, b]
  {
    CountTwoValues(s, a, b);
    assert s == [a] + s[1..];
    assert a !in s[1..];
    assert s[1] == s[1..][0] && s[2] == s[1..][1];
  }

  /** Listed blocks are on pipes, and the first one has no parent. */
  lemma ListedOnPipes(pipes: seq<Pipe>, order: seq<Block>, p: Pipe)
    requires ParentsFirstListing(pipes, order) && p in pipes
    ensures forall i :: 0 <= i < |order| ==> order[i] in Blocks(pipes)
    ensures |order| > 0 ==> order[0] != p.target
  {
    forall i | 0 <= i < |order| ensures order[i] in Blocks(pipes) { assert order[i] in order; }
    if |order| > 0 { assert order[..0] == []; }
  }

  lemma DoublePipeListing(pipes: seq<Pipe>, p: Pipe, order: seq<Block>)
    requires ParentsFirstListing(pipes, order) && CountsAreExact(pipes, order, [])
    requires p in pipes && p.source in StartingBlocks(pipes)
    requires forall b :: b in Blocks(pipes) ==> b == p.source || b == p.target
    requires p.source != p.target && forall q :: q in pipes ==> q == p
    requires multiset(ChildBlocks(pipes, p.source))[p.target] == 2
    ensures order == [p.source, p.target, p.target]
  {
    StartCount(pipes, order, p.source);
    OneParentMultiplies(pipes, order, p.source, p.target);
    ListedOnPipes(pipes, order, p);
    OnceThenTwice(order, p.source, p.target);
  }

  /** Two equal pipes: every result of the sort lists the block they lead to twice. */
  lemma EqualPipesListTwice(p: Pipe, order: seq<Block>)
    requires p.source != p.target
    requires ParentsFirstListing([p, p], order) && CountsAreExact([p, p], order, [])
    ensures order == [p.source, p.target, p.target]
  {
    TwoEqualPipes(p);
    DoublePipeListing([p, p], p, order);
  }
}
