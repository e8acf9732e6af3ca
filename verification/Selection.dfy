/** Keeping the successful entries of a list and dropping the others, by index. */
module Selection {
  import opened Common
  import opened Deletion

  /** The indexes of the successful entries. */
  function Survivors<T>(outcomes: seq<Option<T>>): (r: seq<nat>)
    ensures forall k :: 0 <= k < |r| ==> r[k] < |outcomes| && outcomes[r[k]].Some?
  {
    if |outcomes| == 0 then []
    else
      var n := |outcomes| - 1;
      Survivors(outcomes[..n]) + (if outcomes[n].Some? then [n] else [])
  }

  /** The indexes of the failed entries. */
  function Dropped<T>(outcomes: seq<Option<T>>): (r: seq<int>)
    ensures forall k :: 0 <= k < |r| ==> 0 <= r[k] < |outcomes| && outcomes[r[k]].None?
  {
    if |outcomes| == 0 then []
    else
      var n := |outcomes| - 1;
      Dropped(outcomes[..n]) + (if outcomes[n].None? then [n] else [])
  }

  /** The values of the successful entries. */
  function Kept<T>(outcomes: seq<Option<T>>): (r: seq<T>)
    ensures |r| + |Dropped(outcomes)| == |outcomes|
  {
    if |outcomes| == 0 then []
    else
      var n := |outcomes| - 1;
      Kept(outcomes[..n]) + (if outcomes[n].Some? then [outcomes[n].value] else [])
  }

  /** Both lists of indexes are increasing and between them cover every entry. */
  lemma {:induction false} EveryEntrySurvivesOrIsDropped<T>(outcomes: seq<Option<T>>)
    ensures forall i, j :: 0 <= i < j < |Survivors(outcomes)| ==> Survivors(outcomes)[i] < Survivors(outcomes)[j]
    ensures forall i, j :: 0 <= i < j < |Dropped(outcomes)| ==> Dropped(outcomes)[i] < Dropped(outcomes)[j]
    ensures forall i :: 0 <= i < |outcomes| ==>
              (outcomes[i].Some? <==> i in Survivors(outcomes)) && (outcomes[i].None? <==> i in Dropped(outcomes))
    decreases |outcomes|
  {
    if |outcomes| > 0 {
      var n := |outcomes| - 1;
      EveryEntrySurvivesOrIsDropped(outcomes[..n]);
      forall i | 0 <= i < n ensures outcomes[..n][i] == outcomes[i] {}
    }
  }

  /** The k-th kept value belongs to the k-th surviving entry. */
  lemma {:induction false} KeptAreSurvivors<T>(outcomes: seq<Option<T>>)
    ensures |Kept(outcomes)| == |Survivors(outcomes)|
    ensures forall k :: 0 <= k < |Kept(outcomes)| ==> Some(Kept(outcomes)[k]) == outcomes[Survivors(outcomes)[k]]
    decreases |outcomes|
  {
    if |outcomes| > 0 {
      var n := |outcomes| - 1;
      KeptAreSurvivors(outcomes[..n]);
      var earlier := Survivors(outcomes[..n]);
      forall k | 0 <= k < |earlier| ensures outcomes[..n][earlier[k]] == outcomes[earlier[k]] {}
    }
  }

  /** Deleting the dropped indexes from any list beside the outcomes leaves the surviving ones, in order. */
  lemma {:induction false} DeletingDroppedLeavesSurvivors<S, T>(s: seq<S>, outcomes: seq<Option<T>>)
    requires |s| == |outcomes|
    ensures |Without(s, Elements(Dropped(outcomes)))| == |Survivors(outcomes)|
    ensures forall k :: 0 <= k < |Survivors(outcomes)| ==>
              Without(s, Elements(Dropped(outcomes)))[k] == s[Survivors(outcomes)[k]]
    decreases |s|
  {
    if |s| > 0 {
      var n := |s| - 1;
      DeletingDroppedLeavesSurvivors(s[..n], outcomes[..n]);
      WithoutOneMore(s, outcomes);
      var before := Without(s[..n], Elements(Dropped(outcomes[..n])));
      assert forall k :: 0 <= k < |before| ==> before[k] == s[Survivors(outcomes[..n])[k]];
    }
  }

  lemma WithoutOneMore<S, T>(s: seq<S>, outcomes: seq<Option<T>>)
    requires |s| == |outcomes| > 0
    ensures var n := |s| - 1;
            Without(s, Elements(Dropped(outcomes)))
            == Without(s[..n], Elements(Dropped(outcomes[..n]))) + (if outcomes[n].None? then [] else [s[n]])
  {
    var n := |s| - 1;
    var before := Dropped(outcomes[..n]);
    assert n in Dropped(outcomes) <==> outcomes[n].None?;
    WithoutIgnores(s[..n], Elements(before), Elements(Dropped(outcomes)));
  }
}
