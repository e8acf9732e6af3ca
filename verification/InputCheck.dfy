/** Validation that no block has more than one input, for graphs without a cycle below a starting block. */
module InputCheck {
  import opened Common
  import opened Pipelines

  // ---------------------------------------------------------------------------
  // Starting blocks
  // ---------------------------------------------------------------------------

  /** Every block of an acyclic pipeline hangs below a starting block. */
  lemma {:induction false} ReachedFromStart(pipes: seq<Pipe>, b: Block) returns (s: Block)
    requires Acyclic(pipes) && b in Blocks(pipes)
    ensures s in StartingBlocks(pipes) && (s == b || Reaches(pipes, s, b))
    decreases Blocks(pipes) - Descendants(pipes, b)
  {
    if HasParent(pipes, b) {
      var p :| p in pipes && p.target == b;
      var a := p.source;
      ChildHasFewerDescendants(pipes, a, b);
      assert b in Descendants(pipes, a) && b !in Descendants(pipes, b) by {
        ChildReaches(pipes, a, b, b);
        AcyclicNeverReturns(pipes, b);
      }
      s := ReachedFromStart(pipes, a);
      ChildReaches(pipes, a, b, b);
      if s != a { ReachedByChain(pipes, s, a, b); }
    } else {
      s := b;
    }
  }

  // ---------------------------------------------------------------------------
  // The check
  // ---------------------------------------------------------------------------

  /** A pipe into a block that has another input as well. */
  ghost predicate Offending(pipes: seq<Pipe>, p: Pipe) {
    p in pipes && |IngoingPipes(pipes, p.target)| > 1
  }

  /** No cycle can be reached from the block: the recursion of the check ends there. */
  ghost predicate CycleFreeBelow(pipes: seq<Pipe>, a: Block) {
    forall b :: Below(pipes, a, b) ==> !Reaches(pipes, b, b)
  }

  lemma ChildIsBelow(pipes: seq<Pipe>, a: Block, c: Block, b: Block)
    requires Pipe(a, c) in pipes && Below(pipes, c, b)
    ensures Below(pipes, a, b)
  {
    ChildReaches(pipes, a, c, b);
  }

  ghost predicate BelowStart(pipes: seq<Pipe>, b: Block) {
    exists s :: s in StartingBlocks(pipes) && Below(pipes, s, b)
  }

  lemma CycleFreeChild(pipes: seq<Pipe>, a: Block, c: Block)
    requires Pipe(a, c) in pipes && CycleFreeBelow(pipes, a)
    ensures CycleFreeBelow(pipes, c) && Descendants(pipes, c) < Descendants(pipes, a)
  {
    forall b | Below(pipes, c, b) ensures !Reaches(pipes, b, b) {
      ChildIsBelow(pipes, a, c, b);
    }
    assert Below(pipes, c, c);
    ChildIsLower(pipes, a, c);
  }

  /** The calls of the recursion from this block on are nested at most n deep. */
  ghost predicate DepthAtMost(pipes: seq<Pipe>, a: Block, n: nat) {
    forall w :: IsWalk(pipes, w) && w[0] == a ==> |w| <= n
  }

  lemma {:induction false} WalkIsShort(pipes: seq<Pipe>, a: Block, w: seq<Block>)
    requires CycleFreeBelow(pipes, a) && IsWalk(pipes, w) && w[0] == a
    ensures |w| <= |Descendants(pipes, a)| + 1
    decreases |w|
  {
    if |w| > 1 {
      assert Pipe(w[0], w[1]) in pipes;
      CycleFreeChild(pipes, a, w[1]);
      WalkIsShort(pipes, w[1], w[1..]);
      SubsetIsSmaller(Descendants(pipes, w[1]), Descendants(pipes, a));
    }
  }

  lemma SubsetIsSmaller(s: set<Block>, t: set<Block>)
    requires s < t
    ensures |s| < |t|
  {
    assert |t - s| > 0 by {
      var x :| x in t && x !in s;
      assert x in t - s;
    }
    assert s + (t - s) == t;
  }

  lemma {:induction false} LongWalk(pipes: seq<Pipe>, a: Block, n: nat) returns (w: seq<Block>)
    requires !CycleFreeBelow(pipes, a)
    ensures IsWalk(pipes, w) && w[0] == a && |w| == n + 1
    decreases n
  {
    w := [a];
    if n > 0 {
      var b :| Below(pipes, a, b) && Reaches(pipes, b, b);
      var c := ReachesThroughChild(pipes, a, b);
      assert Below(pipes, c, b);
      var rest := LongWalk(pipes, c, n - 1);
      w := [a] + rest;
    }
  }

  /** The precondition of the check is exact: the depth of its recursion is bounded only without a cycle below. */
  lemma RecursionEndsIff(pipes: seq<Pipe>, a: Block)
    ensures CycleFreeBelow(pipes, a) <==> exists n: nat :: DepthAtMost(pipes, a, n)
  {
    if CycleFreeBelow(pipes, a) {
      forall w | IsWalk(pipes, w) && w[0] == a ensures |w| <= |Descendants(pipes, a)| + 1 {
        WalkIsShort(pipes, a, w);
      }
      assert DepthAtMost(pipes, a, |Descendants(pipes, a)| + 1);
    } else {
      forall n: nat ensures !DepthAtMost(pipes, a, n) {
        var w := LongWalk(pipes, a, n);
      }
    }
  }

  ghost predicate Extends(pipes: seq<Pipe>, before: seq<Pipe>, after: seq<Pipe>) {
    before <= after && Distinct(after) && forall p :: p in after ==> Offending(pipes, p)
  }

  /** What has been marked in addition leads into blocks below this one. */
  ghost predicate AddedBelow(pipes: seq<Pipe>, block: Block, before: seq<Pipe>, after: seq<Pipe>) {
    forall p :: p in after ==> p in before || Below(pipes, block, p.target)
  }

  /** Marks (and reports, in this order) the pipes into this block if there are several. */
  method MarkInputs(pipes: seq<Pipe>, block: Block, alreadyMarked: seq<Pipe>) returns (marked: seq<Pipe>)
    requires Extends(pipes, alreadyMarked, alreadyMarked)
    ensures Extends(pipes, alreadyMarked, marked)
    ensures forall p :: Offending(pipes, p) && p.target == block ==> p in marked
    ensures forall p :: p in marked ==> p in alreadyMarked || p.target == block
  {
    marked := alreadyMarked;
    var pipesFromParents := IngoingPipes(pipes, block);
    if |pipesFromParents| > 1 {
      for i := 0 to |pipesFromParents|
        invariant Extends(pipes, alreadyMarked, marked)
        invariant forall k :: 0 <= k < i ==> pipesFromParents[k] in marked
        invariant forall p :: p in marked ==> p in alreadyMarked || p.target == block
      {
        var pipe := pipesFromParents[i];
        assert pipe in pipesFromParents;
        if pipe in marked { continue; }
        marked := marked + [pipe];
      }
      forall p | Offending(pipes, p) && p.target == block ensures p in marked {
        assert p in pipesFromParents;
      }
    }
  }

  /** All offending pipes into this block and the blocks below it are marked. */
  ghost predicate MarkedBelow(pipes: seq<Pipe>, block: Block, marked: seq<Pipe>) {
    forall p :: Offending(pipes, p) && Below(pipes, block, p.target) ==> p in marked
  }

  ghost predicate AllMarkedBelow(pipes: seq<Pipe>, blocks: seq<Block>, marked: seq<Pipe>) {
    forall b :: b in blocks ==> MarkedBelow(pipes, b, marked)
  }

  lemma MarkedOneMore(pipes: seq<Pipe>, blocks: seq<Block>, i: nat, before: seq<Pipe>, after: seq<Pipe>)
    requires i < |blocks| && AllMarkedBelow(pipes, blocks[..i], before) && before <= after
    requires MarkedBelow(pipes, blocks[i], after)
    ensures AllMarkedBelow(pipes, blocks[..i + 1], after)
  {
    assert blocks[..i + 1] == blocks[..i] + [blocks[i]];
    assert forall p :: p in before ==> p in after;
    forall b | b in blocks[..i] ensures MarkedBelow(pipes, b, after) {
      assert MarkedBelow(pipes, b, before);
    }
  }

  lemma MarkedBelowChildren(pipes: seq<Pipe>, block: Block, inputs: seq<Pipe>, marked: seq<Pipe>)
    requires forall p :: Offending(pipes, p) && p.target == block ==> p in inputs
    requires inputs <= marked && AllMarkedBelow(pipes, ChildBlocks(pipes, block), marked)
    ensures MarkedBelow(pipes, block, marked)
  {
    forall p | Offending(pipes, p) && Below(pipes, block, p.target) ensures p in marked {
      if p.target != block {
        var c := ReachesThroughChild(pipes, block, p.target);
        assert MarkedBelow(pipes, c, marked);
      } else {
        assert p in inputs;
      }
    }
  }

  lemma AddedBelowChild(pipes: seq<Pipe>, a: Block, c: Block, start: seq<Pipe>, before: seq<Pipe>, after: seq<Pipe>)
    requires Pipe(a, c) in pipes && AddedBelow(pipes, a, start, before) && AddedBelow(pipes, c, before, after)
    ensures AddedBelow(pipes, a, start, after)
  {
    forall p | p in after && p !in before ensures Below(pipes, a, p.target) {
      ChildIsBelow(pipes, a, c, p.target);
    }
  }

  method DoCheckMultipleBlockInputs(pipes: seq<Pipe>, block: Block, alreadyMarked: seq<Pipe>)
    returns (marked: seq<Pipe>)
    requires CycleFreeBelow(pipes, block)
    requires Extends(pipes, alreadyMarked, alreadyMarked)
    ensures Extends(pipes, alreadyMarked, marked) && MarkedBelow(pipes, block, marked)
    ensures AddedBelow(pipes, block, alreadyMarked, marked)
    decreases Descendants(pipes, block)
  {
    marked := MarkInputs(pipes, block, alreadyMarked);
    ghost var inputsMarked := marked;
    var children := ChildBlocks(pipes, block);
    for i := 0 to |children|
      invariant Extends(pipes, alreadyMarked, marked) && inputsMarked <= marked
      invariant AllMarkedBelow(pipes, children[..i], marked) && AddedBelow(pipes, block, alreadyMarked, marked)
    {
      var child := children[i];
      assert child in children;
      CycleFreeChild(pipes, block, child);
      ghost var before := marked;
      marked := DoCheckMultipleBlockInputs(pipes, child, marked);
      MarkedOneMore(pipes, children, i, before, marked);
      AddedBelowChild(pipes, block, child, alreadyMarked, before, marked);
    }
    assert children[..|children|] == children;
    MarkedBelowChildren(pipes, block, inputsMarked, marked);
  }

  lemma AddedBelowStart(pipes: seq<Pipe>, s: Block, before: seq<Pipe>, after: seq<Pipe>)
    requires s in StartingBlocks(pipes) && AddedBelow(pipes, s, before, after)
    requires forall p :: p in before ==> BelowStart(pipes, p.target)
    ensures forall p :: p in after ==> BelowStart(pipes, p.target)
  {}

  /** Each offending pipe below a starting block is reported exactly once, and nothing else is. */
  ghost predicate AreReports(pipes: seq<Pipe>, reported: seq<Pipe>) {
    && Distinct(reported)
    && forall p :: p in reported <==> Offending(pipes, p) && BelowStart(pipes, p.target)
  }

  lemma AllBelowStartsReported(pipes: seq<Pipe>, reported: seq<Pipe>)
    requires Extends(pipes, [], reported) && AllMarkedBelow(pipes, StartingBlocks(pipes), reported)
    requires forall p :: p in reported ==> BelowStart(pipes, p.target)
    ensures AreReports(pipes, reported)
  {
    forall p | Offending(pipes, p) && BelowStart(pipes, p.target) ensures p in reported {
      var s :| s in StartingBlocks(pipes) && Below(pipes, s, p.target);
      assert MarkedBelow(pipes, s, reported);
    }
  }

  /** The recursion does not end on a cycle below a starting block; other cycles do not matter. */
  method CheckMultipleBlockInputs(pipes: seq<Pipe>) returns (reported: seq<Pipe>)
    requires forall s :: s in StartingBlocks(pipes) ==> CycleFreeBelow(pipes, s)
    ensures AreReports(pipes, reported)
  {
    var startingBlocks := StartingBlocks(pipes);
    reported := [];
    for i := 0 to |startingBlocks|
      invariant Extends(pipes, [], reported) && forall p :: p in reported ==> BelowStart(pipes, p.target)
      invariant AllMarkedBelow(pipes, startingBlocks[..i], reported)
    {
      var start := startingBlocks[i];
      assert start in startingBlocks;
      ghost var before := reported;
      reported := DoCheckMultipleBlockInputs(pipes, start, reported);
      MarkedOneMore(pipes, startingBlocks, i, before, reported);
      AddedBelowStart(pipes, start, before, reported);
    }
    assert startingBlocks[..|startingBlocks|] == startingBlocks;
    AllBelowStartsReported(pipes, reported);
  }

  /** On an acyclic graph the check ends and covers everything: it reports all offending pipes. */
  lemma AcyclicIsCovered(pipes: seq<Pipe>)
    requires Acyclic(pipes)
    ensures forall s :: CycleFreeBelow(pipes, s)
    ensures forall p :: Offending(pipes, p) ==> BelowStart(pipes, p.target)
  {
    forall b ensures !Reaches(pipes, b, b) { AcyclicNeverReturns(pipes, b); }
    forall p | Offending(pipes, p) ensures BelowStart(pipes, p.target) {
      var s := ReachedFromStart(pipes, p.target);
    }
  }

  lemma EqualPipesOffend(pipes: seq<Pipe>, i: nat, j: nat)
    requires i < j < |pipes|
    ensures pipes[i] == pipes[j] ==> Offending(pipes, pipes[i])
  {
    if pipes[i] == pipes[j] {
      var b := pipes[i].target;
      FilterKeepsTwo((p: Pipe) => p.target == b, pipes, i, j);
    }
  }

  lemma OffendingPipe(pipes: seq<Pipe>, b: Block) returns (p: Pipe)
    requires |IngoingPipes(pipes, b)| > 1
    ensures Offending(pipes, p) && p.target == b
  {
    p := IngoingPipes(pipes, b)[0];
    assert p in IngoingPipes(pipes, b);
  }

  /** The check reports nothing exactly if no block below a starting block has several inputs. */
  lemma NoReportsIff(pipes: seq<Pipe>, reported: seq<Pipe>)
    requires AreReports(pipes, reported)
    ensures reported == [] <==> forall b :: BelowStart(pipes, b) ==> |IngoingPipes(pipes, b)| <= 1
  {
    forall b | BelowStart(pipes, b) && |IngoingPipes(pipes, b)| > 1 ensures reported != [] {
      var p := OffendingPipe(pipes, b);
      assert p in reported;
    }
    if reported != [] { assert reported[0] in reported; }
  }

  /** On an acyclic graph, reporting nothing means a forest: one parent at most, and no two equal pipes. */
  lemma NoReportsMeansForest(pipes: seq<Pipe>, reported: seq<Pipe>)
    requires Acyclic(pipes) && AreReports(pipes, reported)
    ensures reported == [] <==> forall b :: |IngoingPipes(pipes, b)| <= 1
    ensures reported == [] ==> Distinct(pipes)
    ensures reported == [] ==> forall p :: p in pipes ==> IngoingPipes(pipes, p.target) == [p]
  {
    AcyclicIsCovered(pipes);
    NoReportsIff(pipes, reported);
    forall b | |IngoingPipes(pipes, b)| > 1 ensures reported != [] {
      var p := OffendingPipe(pipes, b);
      assert p in reported;
    }
    if reported == [] {
      forall i, j | 0 <= i < j < |pipes| ensures pipes[i] != pipes[j] {
        EqualPipesOffend(pipes, i, j);
      }
      forall p | p in pipes ensures IngoingPipes(pipes, p.target) == [p] {
        assert p in IngoingPipes(pipes, p.target) && |IngoingPipes(pipes, p.target)| <= 1;
      }
    }
  }
}
