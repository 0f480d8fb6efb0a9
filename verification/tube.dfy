/** The tube registry (tube.py): the roots of one tube, reconciled by identity across
    sessions, and their finalization once the last session has been read. The source walks
    the roots with a cursor kept on the tube; here every walk is a plain traversal of the
    root sequence. */
module Tubes {
  import opened Values
  import opened Roots

  /** One tube: its number, its roots, the largest session seen, the date of each session,
      and the tip statistics once computed (absent before). */
  datatype Tube = Tube(
    tubeNumber: Value,
    roots: seq<Root>,
    maxSessionCount: int,
    sessionDates: map<int, Value>,
    tipStats: Option<map<TipKey, int>>)

  /** Some root of `roots` has identity `id`. */
  predicate HasIdentity(roots: seq<Root>, id: RootIdentity) {
    exists i :: 0 <= i < |roots| && roots[i].identity == id
  }

  /** No two roots share an identity. */
  predicate UniqueIdentities(roots: seq<Root>) {
    forall i, j :: 0 <= i < j < |roots| ==> roots[i].identity != roots[j].identity
  }

  /** Every root's status agrees with its gone session. */
  predicate AllStatusAgree(roots: seq<Root>) {
    forall i :: 0 <= i < |roots| ==> StatusAgrees(roots[i])
  }

  /** `Tube(tubenumber)`: an empty tube that knows no identity yet. */
  function NewTube(tubeNumber: Value): (t: Tube)
    ensures t.tubeNumber == tubeNumber && t.maxSessionCount == 0
    ensures forall id :: !HasIdentity(t.roots, id)
    ensures t.sessionDates == map[] && t.tipStats.None?
  {
    Tube(tubeNumber, [], 0, map[], None)
  }

  /** `add_root`: stamps the tube number on the root and appends it; the roots already
      stored stay as they are. */
  function AddRoot(t: Tube, root: Root): (r: Tube)
    ensures r == t.(roots := r.roots)
    ensures |r.roots| == |t.roots| + 1 && r.roots[..|t.roots|] == t.roots
    ensures r.roots[|t.roots|] == root.(tube := Some(t.tubeNumber))
  {
    t.(roots := t.roots + [root.(tube := Some(t.tubeNumber))])
  }

  /** The update `insert_or_update_root` applies to a stored root whose identity matches the
      incoming one. Only the gone session and the status can change: an alive root that
      arrives gone takes the incoming gone session and status; a gone root that arrives
      alive has its gone session cleared to '' and takes the incoming status; any other
      pairing leaves the stored root as it is. */
  function Reconcile(existing: Root, incoming: Root): (r: Root)
    ensures r == existing.(goneSession := r.goneSession, isAlive := r.isAlive)
    ensures existing.isAlive == Alive && incoming.isAlive == Gone ==>
              r.isAlive == Gone && r.goneSession == incoming.goneSession
    ensures existing.isAlive == Gone && incoming.isAlive == Alive ==>
              r.isAlive == Alive && r.goneSession == Blank
    ensures (!(existing.isAlive == Alive && incoming.isAlive == Gone)
             && !(existing.isAlive == Gone && incoming.isAlive == Alive)) ==> r == existing
  {
    if existing.isAlive == Alive && incoming.isAlive == Gone then
      existing.(goneSession := incoming.goneSession, isAlive := incoming.isAlive)
    else if existing.isAlive == Gone && incoming.isAlive == Alive then
      existing.(goneSession := Blank, isAlive := incoming.isAlive)
    else
      existing
  }

  /** The identities of `s` with `x` appended are those of `s` and that of `x`. */
  lemma HasIdentityAppend(s: seq<Root>, x: Root)
    ensures forall id :: HasIdentity(s + [x], id) <==> HasIdentity(s, id) || id == x.identity
  {
    var s' := s + [x];
    assert s'[|s|].identity == x.identity;
    forall id | HasIdentity(s', id) ensures HasIdentity(s, id) || id == x.identity {
      var i :| 0 <= i < |s'| && s'[i].identity == id;
      if i < |s| { assert s[i].identity == id; }
    }
    forall id | HasIdentity(s, id) ensures HasIdentity(s', id) {
      var i :| 0 <= i < |s| && s[i].identity == id;
      assert s'[i].identity == id;
    }
  }

  /** Two root sequences that agree index by index on identity hold the same identities,
      and one has unique identities exactly when the other has. */
  lemma SameIdentitySet(a: seq<Root>, b: seq<Root>)
    requires |a| == |b|
    requires forall i :: 0 <= i < |a| ==> a[i].identity == b[i].identity
    ensures forall id :: HasIdentity(a, id) <==> HasIdentity(b, id)
    ensures UniqueIdentities(a) <==> UniqueIdentities(b)
  {
    forall id | HasIdentity(a, id) ensures HasIdentity(b, id) {
      var i :| 0 <= i < |a| && a[i].identity == id;
      assert b[i].identity == id;
    }
    forall id | HasIdentity(b, id) ensures HasIdentity(a, id) {
      var i :| 0 <= i < |b| && b[i].identity == id;
      assert a[i].identity == id;
    }
  }

  /** `insert_or_update_root`: every stored root with the incoming identity is reconciled
      with it; when there is none, the incoming root is appended with the tube's number.
      The call always reports success. */
  function InsertOrUpdateRoot(t: Tube, root: Root): (r: (Tube, bool))
    ensures r.1
    ensures r.0 == t.(roots := r.0.roots)
    ensures !HasIdentity(t.roots, root.identity) ==>
              r.0.roots == t.roots + [root.(tube := Some(t.tubeNumber))]
    ensures HasIdentity(t.roots, root.identity) ==>
              && |r.0.roots| == |t.roots|
              && forall i :: 0 <= i < |t.roots| ==>
                   r.0.roots[i] == (if t.roots[i].identity == root.identity then Reconcile(t.roots[i], root) else t.roots[i])
    ensures forall id :: HasIdentity(r.0.roots, id) <==> HasIdentity(t.roots, id) || id == root.identity
  {
    var updated := seq(|t.roots|, i requires 0 <= i < |t.roots| =>
      if t.roots[i].identity == root.identity then Reconcile(t.roots[i], root) else t.roots[i]);
    var t' := t.(roots := updated);
    if HasIdentity(t.roots, root.identity) then
      assert forall i :: 0 <= i < |t.roots| ==> updated[i].identity == t.roots[i].identity;
      SameIdentitySet(t.roots, updated);
      (t', true)
    else
      assert updated == t.roots;
      HasIdentityAppend(t.roots, root.(tube := Some(t.tubeNumber)));
      (AddRoot(t', root), true)
  }

  /** Reconciliation keeps identities unique: an identity already present is merged into the
      stored roots, and a new one is appended once. */
  lemma InsertKeepsUnique(t: Tube, root: Root)
    requires UniqueIdentities(t.roots)
    ensures UniqueIdentities(InsertOrUpdateRoot(t, root).0.roots)
  {
    var r := InsertOrUpdateRoot(t, root).0;
    if HasIdentity(t.roots, root.identity) {
      assert forall i :: 0 <= i < |t.roots| ==> r.roots[i].identity == t.roots[i].identity;
    } else {
      assert forall i :: 0 <= i < |t.roots| ==> r.roots[i] == t.roots[i];
      assert r.roots[|t.roots|].identity == root.identity;
    }
  }

  /** Reconciliation keeps every root's status in agreement with its gone session, given an
      incoming root whose status agrees with its own. */
  lemma InsertKeepsStatusAgreement(t: Tube, root: Root)
    requires AllStatusAgree(t.roots) && StatusAgrees(root)
    ensures AllStatusAgree(InsertOrUpdateRoot(t, root).0.roots)
  {
    var r := InsertOrUpdateRoot(t, root).0;
    if !HasIdentity(t.roots, root.identity) {
      assert forall i :: 0 <= i < |t.roots| ==> r.roots[i] == t.roots[i];
      assert r.roots[|t.roots|] == root.(tube := Some(t.tubeNumber));
    }
  }

  /** The effect of `finalize_root` on a stored root matched by `incoming`: the highest order
      is taken from the incoming observation when it belongs to the last session; an alive
      root gets the "never died" gone session 0 and is censored (1); a gone root is not
      censored (0); an unclassified root keeps its gone session and censoring. Nothing else
      changes, so censored is 1 exactly for alive and 0 exactly for gone roots. */
  function FinalizeOne(existing: Root, incoming: Root, maxSessionCount: int): (r: Root)
    ensures r == existing.(highestOrder := r.highestOrder, goneSession := r.goneSession, censored := r.censored)
    ensures r.highestOrder == (if incoming.session == maxSessionCount then incoming.order else existing.highestOrder)
    ensures existing.isAlive == Alive ==> r.goneSession == At(0) && r.censored == Num(1)
    ensures existing.isAlive == Gone ==> r.goneSession == existing.goneSession && r.censored == Num(0)
    ensures existing.isAlive == Unclassified ==>
              r.goneSession == existing.goneSession && r.censored == existing.censored
    ensures existing.isAlive != Unclassified ==>
              (r.censored == Num(1) <==> r.isAlive == Alive) && (r.censored == Num(0) <==> r.isAlive == Gone)
  {
    assert Num(0) != Num(1);
    Settle(existing).(highestOrder := if incoming.session == maxSessionCount then incoming.order else existing.highestOrder)
  }

  /** The status-dependent part of finalization, which does not depend on the incoming
      observation: an alive root gets gone session 0 and censored 1, a gone root censored 0,
      and an unclassified root is left as it is. */
  function Settle(r: Root): Root {
    if r.isAlive == Alive then r.(goneSession := At(0), censored := Num(1))
    else if r.isAlive == Gone then r.(censored := Num(0))
    else r
  }

  /** `finalize_root`: finalizes every stored root with the incoming identity and reports
      whether there was one. Roots are neither added nor removed. */
  function FinalizeRoot(t: Tube, root: Root): (r: (Tube, bool))
    ensures r.1 <==> HasIdentity(t.roots, root.identity)
    ensures r.0 == t.(roots := r.0.roots)
    ensures |r.0.roots| == |t.roots|
    ensures forall i :: 0 <= i < |t.roots| ==>
              r.0.roots[i] == (if t.roots[i].identity == root.identity
                               then FinalizeOne(t.roots[i], root, t.maxSessionCount) else t.roots[i])
    ensures forall i :: 0 <= i < |t.roots| ==> r.0.roots[i].identity == t.roots[i].identity
  {
    var updated := seq(|t.roots|, i requires 0 <= i < |t.roots| =>
      if t.roots[i].identity == root.identity then FinalizeOne(t.roots[i], root, t.maxSessionCount) else t.roots[i]);
    (t.(roots := updated), HasIdentity(t.roots, root.identity))
  }

  /** Reconciling the same observation twice has the effect of reconciling it once. */
  lemma InsertIdempotent(t: Tube, root: Root)
    ensures InsertOrUpdateRoot(InsertOrUpdateRoot(t, root).0, root).0 == InsertOrUpdateRoot(t, root).0
  {
    var t1 := InsertOrUpdateRoot(t, root).0;
    var t2 := InsertOrUpdateRoot(t1, root).0;
    assert HasIdentity(t1.roots, root.identity);
    assert |t2.roots| == |t1.roots|;
    forall i | 0 <= i < |t1.roots| ensures t2.roots[i] == t1.roots[i] {
      if t1.roots[i].identity == root.identity {
        if i < |t.roots| && HasIdentity(t.roots, root.identity) {
          assert t1.roots[i] == Reconcile(t.roots[i], root);
        }
      }
    }
  }

  /** A root seen alive, then gone, then alive again: after the second observation it is
      gone with the second observation's gone session; after the third it is alive with its
      gone session cleared. */
  lemma DeathThenResurrection(t: Tube, first: Root, second: Root, third: Root)
    requires !HasIdentity(t.roots, first.identity)
    requires second.identity == first.identity && third.identity == first.identity
    requires first.isAlive == Alive && second.isAlive == Gone && third.isAlive == Alive
    ensures var t1 := InsertOrUpdateRoot(t, first).0;
            var t2 := InsertOrUpdateRoot(t1, second).0;
            var t3 := InsertOrUpdateRoot(t2, third).0;
            && |t3.roots| == |t.roots| + 1
            && t2.roots[|t.roots|].isAlive == Gone && t2.roots[|t.roots|].goneSession == second.goneSession
            && t3.roots[|t.roots|].isAlive == Alive && t3.roots[|t.roots|].goneSession == Blank
  {
    var t1 := InsertOrUpdateRoot(t, first).0;
    var n := |t.roots|;
    assert t1.roots[n].identity == first.identity;
    assert HasIdentity(t1.roots, second.identity);
    var t2 := InsertOrUpdateRoot(t1, second).0;
    assert t2.roots[n] == Reconcile(t1.roots[n], second);
    assert HasIdentity(t2.roots, third.identity);
  }
}
