/** The life history of one physical root, stated independently of the tube: the record a
    tube ends up holding for an identity is its first sighting, stamped with the tube's
    number, into which every later sighting is reconciled in order. The status and gone
    session this produces are characterised from the positions of the sightings alone. */
module History {
  import opened Values
  import opened Roots
  import opened Tubes

  /** The identities of `roots`, position by position. */
  function Ids(roots: seq<Root>): (ids: seq<RootIdentity>)
    ensures |ids| == |roots|
    ensures forall i :: 0 <= i < |roots| ==> ids[i] == roots[i].identity
  {
    seq(|roots|, i requires 0 <= i < |roots| => roots[i].identity)
  }

  /** The position of the first sighting of `id` in `roots`, or -1 when there is none. */
  function FirstIndex(roots: seq<Root>, id: RootIdentity): (j: int)
    ensures -1 <= j < |roots|
    ensures j == -1 <==> !HasIdentity(roots, id)
    ensures j >= 0 ==> roots[j].identity == id && forall k :: 0 <= k < j ==> roots[k].identity != id
    decreases |roots|
  {
    if |roots| == 0 then -1
    else
      var n := |roots| - 1;
      assert roots == roots[..n] + [roots[n]];
      HasIdentityAppend(roots[..n], roots[n]);
      var p := FirstIndex(roots[..n], id);
      assert p >= 0 ==> roots[..n][p] == roots[p];
      assert forall k :: 0 <= k < n ==> roots[..n][k] == roots[k];
      if p >= 0 then p else if roots[n].identity == id then n else -1
  }

  /** The identities of `roots` without repetition, in the order of their first sightings
      (see `FirstIdsInOrder`). */
  function FirstIds(roots: seq<Root>): (ids: seq<RootIdentity>)
    ensures forall id :: id in ids <==> HasIdentity(roots, id)
    decreases |roots|
  {
    if |roots| == 0 then []
    else
      var n := |roots| - 1;
      var p := roots[..n];
      var x := roots[n];
      assert roots == p + [x];
      HasIdentityAppend(p, x);
      var rest := FirstIds(p);
      if HasIdentity(p, x.identity) then rest else rest + [x.identity]
  }

  /** `FirstIds` lists each identity once, ordered by the position of its first sighting. */
  lemma {:induction false} FirstIdsInOrder(roots: seq<Root>)
    ensures forall i, j :: 0 <= i < j < |FirstIds(roots)| ==>
              FirstIndex(roots, FirstIds(roots)[i]) < FirstIndex(roots, FirstIds(roots)[j])
    decreases |roots|
  {
    if |roots| > 0 {
      var n := |roots| - 1;
      var p := roots[..n];
      var x := roots[n];
      assert roots == p + [x];
      HasIdentityAppend(p, x);
      FirstIdsInOrder(p);
      forall id ensures FirstIndex(roots, id) == FirstIndexAfter(p, x, id) {
        AppendFacts(p, x, id, Empty);
      }
    }
  }

  /** `FirstIndex` of `p + [x]` in terms of `p`. */
  function FirstIndexAfter(p: seq<Root>, x: Root, id: RootIdentity): int {
    if HasIdentity(p, id) then FirstIndex(p, id) else if x.identity == id then |p| else -1
  }

  /** The position of the last sighting of `id` with status `st`, or -1 when there is none. */
  function LastWith(roots: seq<Root>, id: RootIdentity, st: Status): (j: int)
    ensures -1 <= j < |roots|
    ensures j >= 0 ==> roots[j].identity == id && roots[j].isAlive == st
    ensures forall k :: j < k < |roots| && roots[k].identity == id ==> roots[k].isAlive != st
    decreases |roots|
  {
    if |roots| == 0 then -1
    else
      var n := |roots| - 1;
      if roots[n].identity == id && roots[n].isAlive == st then n
      else
        var p := LastWith(roots[..n], id, st);
        assert p >= 0 ==> roots[..n][p] == roots[p];
        assert forall k :: 0 <= k < n ==> roots[..n][k] == roots[k];
        p
  }

  /** Reference: the record of `id` after its sightings in `roots`: the first one stamped
      with the tube's number, then each later one reconciled into it in order; nothing when
      `id` is never sighted. */
  function Merged(roots: seq<Root>, id: RootIdentity, tubeNumber: Value): (m: Option<Root>)
    ensures m.Some? <==> HasIdentity(roots, id)
    ensures m.Some? ==>
              m.value == roots[FirstIndex(roots, id)].(tube := Some(tubeNumber), isAlive := m.value.isAlive,
                                                       goneSession := m.value.goneSession)
    decreases |roots|
  {
    if |roots| == 0 then None
    else
      var n := |roots| - 1;
      var p := roots[..n];
      var x := roots[n];
      assert roots == p + [x];
      HasIdentityAppend(p, x);
      var prev := Merged(p, id, tubeNumber);
      AppendFacts(p, x, id, tubeNumber);
      if x.identity != id then prev
      else if prev.None? then Some(x.(tube := Some(tubeNumber)))
      else Some(Reconcile(prev.value, x))
  }

  /** How `FirstIndex`, `LastWith` and `Merged` of `p + [x]` follow from those of `p`. */
  lemma AppendFacts(p: seq<Root>, x: Root, id: RootIdentity, tubeNumber: Value)
    ensures FirstIndex(p + [x], id) == FirstIndexAfter(p, x, id)
    ensures forall st :: LastWith(p + [x], id, st) == if x.identity == id && x.isAlive == st then |p| else LastWith(p, id, st)
    ensures forall k :: 0 <= k < |p| ==> (p + [x])[k] == p[k]
  {
    assert (p + [x])[..|p|] == p;
  }

  /** `Merged` of `p + [x]` in terms of `p`. */
  lemma MergedAppend(p: seq<Root>, x: Root, id: RootIdentity, tubeNumber: Value)
    ensures Merged(p + [x], id, tubeNumber)
            == if x.identity != id then Merged(p, id, tubeNumber)
               else if Merged(p, id, tubeNumber).None? then Some(x.(tube := Some(tubeNumber)))
               else Some(Reconcile(Merged(p, id, tubeNumber).value, x))
  {
    assert (p + [x])[..|p|] == p;
  }

  /** Position `j` holds the first gone sighting of `id` after position `a`. */
  predicate FirstGoneAfter(roots: seq<Root>, id: RootIdentity, a: int, j: int) {
    && a < j && 0 <= j < |roots| && roots[j].identity == id && roots[j].isAlive == Gone
    && forall k :: a < k < j && 0 <= k && roots[k].identity == id ==> roots[k].isAlive != Gone
  }

  /** What the sightings of `id` in `roots` say about the record `m` of `id`:
      - when the first sighting is unclassified, so is the record, with its gone session;
      - otherwise the record has the status of the last alive or gone sighting;
      - an alive record has its gone session cleared when some sighting was gone, and the
        first sighting's otherwise;
      - a gone record has the gone session of the first gone sighting after the last alive
        one. */
  ghost predicate StatusHistory(roots: seq<Root>, id: RootIdentity, m: Root) {
    var f := FirstIndex(roots, id);
    var a := LastWith(roots, id, Alive);
    var g := LastWith(roots, id, Gone);
    && 0 <= f
    && (roots[f].isAlive == Unclassified ==> m.isAlive == Unclassified && m.goneSession == roots[f].goneSession)
    && (roots[f].isAlive != Unclassified ==>
          && (m.isAlive == Alive <==> a > g)
          && (m.isAlive == Gone <==> g > a)
          && (m.isAlive == Alive ==> m.goneSession == if g >= 0 then Blank else roots[f].goneSession)
          && (m.isAlive == Gone ==> exists j :: FirstGoneAfter(roots, id, a, j) && m.goneSession == roots[j].goneSession))
  }

  /** The record of every sighted identity has the status history its sightings describe. */
  lemma {:induction false} MergedHistory(roots: seq<Root>, id: RootIdentity, tubeNumber: Value)
    requires HasIdentity(roots, id)
    ensures StatusHistory(roots, id, Merged(roots, id, tubeNumber).value)
    decreases |roots|
  {
    var n := |roots| - 1;
    var p := roots[..n];
    var x := roots[n];
    assert roots == p + [x];
    HasIdentityAppend(p, x);
    if HasIdentity(p, id) {
      MergedHistory(p, id, tubeNumber);
      if x.identity == id {
        HistoryStep(p, x, id, tubeNumber);
      } else {
        HistoryUnrelated(p, x, id, tubeNumber);
      }
    } else {
      HistoryFirst(p, x, id, tubeNumber);
    }
  }

  /** A first sighting starts the history. */
  lemma HistoryFirst(p: seq<Root>, x: Root, id: RootIdentity, tubeNumber: Value)
    requires !HasIdentity(p, id) && x.identity == id
    ensures StatusHistory(p + [x], id, Merged(p + [x], id, tubeNumber).value)
  {
    HasIdentityAppend(p, x);
    AppendFacts(p, x, id, tubeNumber);
    MergedAppend(p, x, id, tubeNumber);
    var s := p + [x];
    assert LastWith(p, id, Alive) == -1 && LastWith(p, id, Gone) == -1;
    if x.isAlive == Gone {
      assert FirstGoneAfter(s, id, -1, |p|);
    }
  }

  /** A sighting of another identity leaves the history as it was. */
  lemma HistoryUnrelated(p: seq<Root>, x: Root, id: RootIdentity, tubeNumber: Value)
    requires HasIdentity(p, id) && x.identity != id
    requires StatusHistory(p, id, Merged(p, id, tubeNumber).value)
    ensures StatusHistory(p + [x], id, Merged(p + [x], id, tubeNumber).value)
  {
    HasIdentityAppend(p, x);
    AppendFacts(p, x, id, tubeNumber);
    MergedAppend(p, x, id, tubeNumber);
    var m := Merged(p, id, tubeNumber).value;
    var f := FirstIndex(p, id);
    if p[f].isAlive != Unclassified && m.isAlive == Gone {
      var j :| FirstGoneAfter(p, id, LastWith(p, id, Alive), j) && m.goneSession == p[j].goneSession;
      GoneAfterLift(p, x, id, LastWith(p, id, Alive), j);
    }
  }

  /** A first gone sighting after a position stays one when a sighting is appended. */
  lemma GoneAfterLift(p: seq<Root>, x: Root, id: RootIdentity, a: int, j: int)
    requires FirstGoneAfter(p, id, a, j)
    ensures FirstGoneAfter(p + [x], id, a, j)
  {
    assert forall k :: 0 <= k < |p| ==> (p + [x])[k] == p[k];
  }

  /** A later sighting of the same identity extends the history. */
  lemma HistoryStep(p: seq<Root>, x: Root, id: RootIdentity, tubeNumber: Value)
    requires HasIdentity(p, id) && x.identity == id
    requires StatusHistory(p, id, Merged(p, id, tubeNumber).value)
    ensures StatusHistory(p + [x], id, Merged(p + [x], id, tubeNumber).value)
  {
    match x.isAlive
    case Alive => StepAlive(p, x, id, tubeNumber);
    case Gone => StepGone(p, x, id, tubeNumber);
    case Unclassified => StepUnclassified(p, x, id, tubeNumber);
  }

  /** An alive sighting revives a gone record and leaves any other as it is. */
  lemma StepAlive(p: seq<Root>, x: Root, id: RootIdentity, tubeNumber: Value)
    requires HasIdentity(p, id) && x.identity == id && x.isAlive == Alive
    requires StatusHistory(p, id, Merged(p, id, tubeNumber).value)
    ensures StatusHistory(p + [x], id, Merged(p + [x], id, tubeNumber).value)
  {
    HasIdentityAppend(p, x);
    AppendFacts(p, x, id, tubeNumber);
    MergedAppend(p, x, id, tubeNumber);
  }

  /** A gone sighting kills an alive record, which takes its gone session, and leaves any
      other as it is. */
  lemma StepGone(p: seq<Root>, x: Root, id: RootIdentity, tubeNumber: Value)
    requires HasIdentity(p, id) && x.identity == id && x.isAlive == Gone
    requires StatusHistory(p, id, Merged(p, id, tubeNumber).value)
    ensures StatusHistory(p + [x], id, Merged(p + [x], id, tubeNumber).value)
  {
    HasIdentityAppend(p, x);
    AppendFacts(p, x, id, tubeNumber);
    MergedAppend(p, x, id, tubeNumber);
    var m := Merged(p, id, tubeNumber).value;
    var a := LastWith(p, id, Alive);
    if p[FirstIndex(p, id)].isAlive != Unclassified {
      if m.isAlive == Alive {
        assert FirstGoneAfter(p + [x], id, a, |p|);
      } else {
        var j :| FirstGoneAfter(p, id, a, j) && m.goneSession == p[j].goneSession;
        GoneAfterLift(p, x, id, a, j);
      }
    }
  }

  /** An unclassified sighting leaves the record as it is. */
  lemma StepUnclassified(p: seq<Root>, x: Root, id: RootIdentity, tubeNumber: Value)
    requires HasIdentity(p, id) && x.identity == id && x.isAlive == Unclassified
    requires StatusHistory(p, id, Merged(p, id, tubeNumber).value)
    ensures StatusHistory(p + [x], id, Merged(p + [x], id, tubeNumber).value)
  {
    HasIdentityAppend(p, x);
    AppendFacts(p, x, id, tubeNumber);
    MergedAppend(p, x, id, tubeNumber);
    var m := Merged(p, id, tubeNumber).value;
    if p[FirstIndex(p, id)].isAlive != Unclassified && m.isAlive == Gone {
      var j :| FirstGoneAfter(p, id, LastWith(p, id, Alive), j) && m.goneSession == p[j].goneSession;
      GoneAfterLift(p, x, id, LastWith(p, id, Alive), j);
    }
  }
}
