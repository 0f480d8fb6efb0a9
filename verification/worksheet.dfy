/** The bookkeeping of `process_worksheet`: one tube's observation rows become roots, which
    are reconciled into the tube in row order, finalized against the last session, and
    annotated with the tip statistics (the driver is `Process.ProcessWorksheet`). The rows
    arrive already cut out of the sheet and typed. */
module Worksheet {
  import opened Values
  import opened Roots
  import opened Tubes
  import opened Survivorship
  import opened History

  /** The identity `root_from_row` gives the root of `row`. */
  function RowIdentity(row: Row): RootIdentity {
    RootIdentity(row.rootName, row.location, row.birthSession)
  }

  /** `root_from_row` over the rows in order; the first row that fails aborts the walk. */
  function RootsFromRows(rows: seq<Row>): (r: Result<seq<Root>, RowError>)
    ensures r.Success? <==> forall i :: 0 <= i < |rows| ==> RootFromRow(rows[i]).Success?
    ensures r.Success? ==>
              && |r.value| == |rows|
              && forall i :: 0 <= i < |rows| ==> r.value[i] == RootFromRow(rows[i]).value
    ensures r.Failure? ==>
              exists i :: 0 <= i < |rows| && RootFromRow(rows[i]) == Failure(r.error)
                          && forall j :: 0 <= j < i ==> RootFromRow(rows[j]).Success?
    decreases |rows|
  {
    if |rows| == 0 then Success([])
    else
      match RootFromRow(rows[0])
      case Failure(e) => Failure(e)
      case Success(root) =>
        match RootsFromRows(rows[1..])
        case Failure(e) =>
          assert forall i :: 0 < i < |rows| ==> rows[1..][i - 1] == rows[i];
          Failure(e)
        case Success(rest) =>
          assert forall i :: 0 < i < |rows| ==> rows[1..][i - 1] == rows[i];
          Success([root] + rest)
  }

  /** The largest session among the roots, starting from 1. */
  function MaxSession(roots: seq<Root>): (m: int)
    ensures m >= 1
    ensures forall i :: 0 <= i < |roots| ==> roots[i].session <= m
    ensures m == 1 || exists i :: 0 <= i < |roots| && roots[i].session == m
    decreases |roots|
  {
    if |roots| == 0 then 1
    else
      var prefix := roots[..|roots| - 1];
      var last := roots[|roots| - 1];
      var m := MaxSession(prefix);
      assert forall i :: 0 <= i < |prefix| ==> prefix[i] == roots[i];
      if last.session > m then last.session else m
  }

  /** The date of each session: the date of the first row of that session. */
  function SessionDates(rows: seq<Row>): (d: map<int, Value>)
    ensures forall s :: s in d <==> exists i :: 0 <= i < |rows| && rows[i].session == s
    ensures forall s :: s in d ==>
              exists i :: 0 <= i < |rows| && rows[i].session == s && d[s] == rows[i].date
                          && forall j :: 0 <= j < i ==> rows[j].session != s
    decreases |rows|
  {
    if |rows| == 0 then map[]
    else
      var prefix := rows[..|rows| - 1];
      var last := rows[|rows| - 1];
      var d := SessionDates(prefix);
      assert forall i :: 0 <= i < |prefix| ==> prefix[i] == rows[i];
      if last.session in d then d else d[last.session := last.date]
  }

  /** Every root carries the tube's number. */
  predicate AllInTube(roots: seq<Root>, tubeNumber: Value) {
    forall i :: 0 <= i < |roots| ==> roots[i].tube == Some(tubeNumber)
  }

  /** One reconciliation keeps the tube's roots unique and stamped with its number. */
  lemma InsertStep(t: Tube, root: Root)
    ensures UniqueIdentities(t.roots) ==> UniqueIdentities(InsertOrUpdateRoot(t, root).0.roots)
    ensures AllInTube(t.roots, t.tubeNumber) ==> AllInTube(InsertOrUpdateRoot(t, root).0.roots, t.tubeNumber)
  {
    var r := InsertOrUpdateRoot(t, root).0;
    if UniqueIdentities(t.roots) {
      InsertKeepsUnique(t, root);
    }
    if AllInTube(t.roots, t.tubeNumber) {
      if HasIdentity(t.roots, root.identity) {
        assert forall i :: 0 <= i < |t.roots| ==> r.roots[i].tube == t.roots[i].tube;
      } else {
        assert forall i :: 0 <= i < |t.roots| ==> r.roots[i] == t.roots[i];
        assert r.roots[|t.roots|].tube == Some(t.tubeNumber);
      }
    }
  }

  /** `insert_or_update_root` for each root in order. Starting from a tube whose roots are
      unique and carry its number, the tube ends up with one root per identity of the stored
      and incoming roots, in the order of their first sightings, each the merged history of
      its sightings. */
  function InsertAll(t: Tube, roots: seq<Root>): (r: Tube)
    ensures r == t.(roots := r.roots)
    ensures forall id :: HasIdentity(r.roots, id) <==> HasIdentity(t.roots, id) || HasIdentity(roots, id)
    ensures UniqueIdentities(t.roots) ==> UniqueIdentities(r.roots)
    ensures AllInTube(t.roots, t.tubeNumber) ==> AllInTube(r.roots, t.tubeNumber)
    ensures UniqueIdentities(t.roots) && AllInTube(t.roots, t.tubeNumber) ==> HistoryOf(r.roots, t.roots + roots, t.tubeNumber)
    decreases |roots|
  {
    if |roots| == 0 then
      assert t.roots + roots == t.roots;
      if UniqueIdentities(t.roots) && AllInTube(t.roots, t.tubeNumber) then OwnHistory(t.roots, t.tubeNumber); t
      else t
    else
      var prefix := roots[..|roots| - 1];
      var last := roots[|roots| - 1];
      var t1 := InsertAll(t, prefix);
      assert roots == prefix + [last];
      HasIdentityAppend(prefix, last);
      InsertStep(t1, last);
      var r := InsertOrUpdateRoot(t1, last).0;
      assert t.roots + roots == (t.roots + prefix) + [last];
      if UniqueIdentities(t.roots) && AllInTube(t.roots, t.tubeNumber) then InsertExtendsHistory(t1, t.roots + prefix, last); r
      else r
  }

  /** The stored roots are, in order, one per identity of `sightings` in the order of their
      first sightings, and each is the merged history of its identity's sightings. */
  ghost predicate HistoryOf(stored: seq<Root>, sightings: seq<Root>, tubeNumber: Value) {
    && Ids(stored) == FirstIds(sightings)
    && forall i :: 0 <= i < |stored| ==> Merged(sightings, stored[i].identity, tubeNumber) == Some(stored[i])
  }

  /** Roots with unique identities that carry the tube's number are their own history. */
  lemma {:induction false} OwnHistory(s: seq<Root>, tubeNumber: Value)
    requires UniqueIdentities(s) && AllInTube(s, tubeNumber)
    ensures HistoryOf(s, s, tubeNumber)
    decreases |s|
  {
    if |s| > 0 {
      var n := |s| - 1;
      var p := s[..n];
      var x := s[n];
      assert s == p + [x];
      OwnHistory(p, tubeNumber);
      HasIdentityAppend(p, x);
      assert !HasIdentity(p, x.identity);
      assert Ids(s) == Ids(p) + [x.identity];
      forall i | 0 <= i < |s| ensures Merged(s, s[i].identity, tubeNumber) == Some(s[i]) {
        MergedAppend(p, x, s[i].identity, tubeNumber);
        if i < n {
          assert s[i] == p[i];
        }
      }
    }
  }

  /** Inserting one more sighting extends the history the tube's roots follow. */
  lemma InsertExtendsHistory(t1: Tube, sightings: seq<Root>, x: Root)
    requires UniqueIdentities(t1.roots)
    requires HistoryOf(t1.roots, sightings, t1.tubeNumber)
    ensures HistoryOf(InsertOrUpdateRoot(t1, x).0.roots, sightings + [x], t1.tubeNumber)
  {
    IdsHaveIdentities(t1.roots);
    if HasIdentity(t1.roots, x.identity) {
      UpdateExtendsHistory(t1, sightings, x);
    } else {
      AppendExtendsHistory(t1, sightings, x);
    }
  }

  /** The identities listed by `Ids` are those the roots hold. */
  lemma IdsHaveIdentities(s: seq<Root>)
    ensures forall id :: id in Ids(s) <==> HasIdentity(s, id)
  {
    forall id | HasIdentity(s, id) ensures id in Ids(s) {
      var i :| 0 <= i < |s| && s[i].identity == id;
      assert Ids(s)[i] == id;
    }
  }

  /** A sighting of an identity on record is reconciled into its root. */
  lemma UpdateExtendsHistory(t1: Tube, sightings: seq<Root>, x: Root)
    requires HistoryOf(t1.roots, sightings, t1.tubeNumber)
    requires HasIdentity(t1.roots, x.identity) && HasIdentity(sightings, x.identity)
    ensures HistoryOf(InsertOrUpdateRoot(t1, x).0.roots, sightings + [x], t1.tubeNumber)
  {
    var r := InsertOrUpdateRoot(t1, x).0.roots;
    var s := sightings + [x];
    assert s[..|sightings|] == sightings;
    assert FirstIds(s) == FirstIds(sightings);
    assert Ids(r) == Ids(t1.roots);
    forall i | 0 <= i < |r| ensures Merged(s, r[i].identity, t1.tubeNumber) == Some(r[i]) {
      MergedAppend(sightings, x, r[i].identity, t1.tubeNumber);
    }
  }

  /** A sighting of a new identity is appended as its first record. */
  lemma AppendExtendsHistory(t1: Tube, sightings: seq<Root>, x: Root)
    requires HistoryOf(t1.roots, sightings, t1.tubeNumber)
    requires !HasIdentity(t1.roots, x.identity) && !HasIdentity(sightings, x.identity)
    ensures HistoryOf(InsertOrUpdateRoot(t1, x).0.roots, sightings + [x], t1.tubeNumber)
  {
    var r := InsertOrUpdateRoot(t1, x).0.roots;
    var s := sightings + [x];
    assert s[..|sightings|] == sightings;
    assert FirstIds(s) == FirstIds(sightings) + [x.identity];
    assert Ids(r) == Ids(t1.roots) + [x.identity];
    forall i | 0 <= i < |r| ensures Merged(s, r[i].identity, t1.tubeNumber) == Some(r[i]) {
      MergedAppend(sightings, x, r[i].identity, t1.tubeNumber);
      if i < |t1.roots| {
        assert r[i] == t1.roots[i];
      }
    }
  }

  /** The roots observed in the last session, in row order: those passed to
      `finalize_root`. */
  function FinalRoots(roots: seq<Root>, maxSessionCount: int): (r: seq<Root>)
    ensures forall x :: x in r <==> x in roots && x.session == maxSessionCount
    ensures Picks(r, roots, (x: Root) => x.session == maxSessionCount)
    decreases |roots|
  {
    if |roots| == 0 then []
    else
      var prefix := roots[..|roots| - 1];
      var last := roots[|roots| - 1];
      assert roots == prefix + [last];
      var rest := FinalRoots(prefix, maxSessionCount);
      PicksStep(rest, roots, (x: Root) => x.session == maxSessionCount);
      if last.session == maxSessionCount then rest + [last] else rest
  }

  /** The root at index `j` has identity `id` and was observed in session `s`. */
  predicate SeenAt(roots: seq<Root>, j: int, id: RootIdentity, s: int) {
    0 <= j < |roots| && roots[j].identity == id && roots[j].session == s
  }

  /** The root at index `j` is the last one with identity `id` observed in session `s`. */
  predicate LastSeenAt(roots: seq<Root>, j: int, id: RootIdentity, s: int) {
    SeenAt(roots, j, id, s) && forall k :: j < k < |roots| ==> !SeenAt(roots, k, id, s)
  }

  /** The order of the last root of `roots` with identity `id` observed in session `s`, or
      nothing when there is none. */
  function LastOrder(roots: seq<Root>, id: RootIdentity, s: int): (o: Option<Value>)
    ensures o.Some? <==> exists j :: SeenAt(roots, j, id, s)
    ensures o.Some? ==> exists j :: LastSeenAt(roots, j, id, s) && roots[j].order == o.value
    decreases |roots|
  {
    if |roots| == 0 then None
    else
      var n := |roots| - 1;
      if roots[n].identity == id && roots[n].session == s then
        assert LastSeenAt(roots, n, id, s);
        Some(roots[n].order)
      else
        assert roots == roots[..n] + [roots[n]];
        LastOrderPrefix(roots[..n], roots[n], id, s);
        LastOrder(roots[..n], id, s)
  }

  /** When the appended root does not match, the matches are those of the prefix. */
  lemma LastOrderPrefix(prefix: seq<Root>, last: Root, id: RootIdentity, s: int)
    requires !(last.identity == id && last.session == s)
    ensures (exists j :: SeenAt(prefix + [last], j, id, s)) <==> exists j :: SeenAt(prefix, j, id, s)
    ensures forall j :: LastSeenAt(prefix, j, id, s) ==> LastSeenAt(prefix + [last], j, id, s)
  {
    assert forall j :: SeenAt(prefix + [last], j, id, s) <==> SeenAt(prefix, j, id, s);
  }

  /** The row at index `j` has identity `id` and session `s`. */
  predicate RowSeenAt(rows: seq<Row>, j: int, id: RootIdentity, s: int) {
    0 <= j < |rows| && RowIdentity(rows[j]) == id && rows[j].session == s
  }

  /** The row at index `j` is the last one with identity `id` in session `s`. */
  predicate LastRowSeenAt(rows: seq<Row>, j: int, id: RootIdentity, s: int) {
    RowSeenAt(rows, j, id, s) && forall k :: j < k < |rows| ==> !RowSeenAt(rows, k, id, s)
  }

  /** The root notes of the last row of `rows` with identity `id` in session `s`, or nothing
      when there is none. */
  function LastNotes(rows: seq<Row>, id: RootIdentity, s: int): (o: Option<Value>)
    ensures o.Some? <==> exists j :: RowSeenAt(rows, j, id, s)
    ensures o.Some? ==> exists j :: LastRowSeenAt(rows, j, id, s) && rows[j].rootNotes == o.value
    decreases |rows|
  {
    if |rows| == 0 then None
    else
      var n := |rows| - 1;
      if RowIdentity(rows[n]) == id && rows[n].session == s then
        assert LastRowSeenAt(rows, n, id, s);
        Some(rows[n].rootNotes)
      else
        assert rows == rows[..n] + [rows[n]];
        LastNotesPrefix(rows[..n], rows[n], id, s);
        LastNotes(rows[..n], id, s)
  }

  /** When the appended row does not match, the matches are those of the prefix. */
  lemma LastNotesPrefix(prefix: seq<Row>, last: Row, id: RootIdentity, s: int)
    requires !(RowIdentity(last) == id && last.session == s)
    ensures (exists j :: RowSeenAt(prefix + [last], j, id, s)) <==> exists j :: RowSeenAt(prefix, j, id, s)
    ensures forall j :: LastRowSeenAt(prefix, j, id, s) ==> LastRowSeenAt(prefix + [last], j, id, s)
  {
    assert forall j :: RowSeenAt(prefix + [last], j, id, s) <==> RowSeenAt(prefix, j, id, s);
  }

  /** Appending one root: it is the last one observed when it matches. */
  lemma LastOrderAppend(prefix: seq<Root>, x: Root, id: RootIdentity, s: int)
    ensures LastOrder(prefix + [x], id, s)
            == if x.identity == id && x.session == s then Some(x.order) else LastOrder(prefix, id, s)
  {
    assert (prefix + [x])[..|prefix|] == prefix;
  }

  /** Keeping only the roots of session `s` does not change which of them was observed last
      in session `s`. */
  lemma {:induction false} LastOrderOfFinals(roots: seq<Root>, s: int, id: RootIdentity)
    ensures LastOrder(FinalRoots(roots, s), id, s) == LastOrder(roots, id, s)
    decreases |roots|
  {
    if |roots| > 0 {
      var n := |roots| - 1;
      LastOrderOfFinals(roots[..n], s, id);
      if roots[n].session == s {
        LastOrderAppend(FinalRoots(roots[..n], s), roots[n], id, s);
      }
    }
  }

  /** The roots built from `rows`, index by index: same identity, session and order. */
  predicate RootsOf(roots: seq<Root>, rows: seq<Row>) {
    && |roots| == |rows|
    && forall i :: 0 <= i < |rows| ==>
         && roots[i].identity == RowIdentity(rows[i]) && roots[i].session == rows[i].session
         && roots[i].order == rows[i].rootNotes
  }

  /** The last root observed is that of the last row observed. */
  lemma {:induction false} LastOrderOfRows(roots: seq<Root>, rows: seq<Row>, id: RootIdentity, s: int)
    requires RootsOf(roots, rows)
    ensures LastOrder(roots, id, s) == LastNotes(rows, id, s)
    decreases |rows|
  {
    if |rows| > 0 {
      var n := |rows| - 1;
      assert RootsOf(roots[..n], rows[..n]);
      LastOrderOfRows(roots[..n], rows[..n], id, s);
    }
  }

  /** What finalization leaves on a root: an alive root has the "never died" gone session 0
      and is censored; a gone root is not censored. */
  predicate Finalized(r: Root) {
    && (r.isAlive == Alive ==> r.goneSession == At(0) && r.censored == Num(1))
    && (r.isAlive == Gone ==> r.censored == Num(0))
  }

  /** `a` is the stored root `b` after the final roots `finals` have been applied to it: when
      some final root has its identity, its gone session and censoring are settled by its
      status and its highest order is the order of the last such final root observed in
      session `max` (kept when there is none); otherwise it is untouched. */
  predicate FinalizedFrom(b: Root, a: Root, finals: seq<Root>, max: int) {
    && a.identity == b.identity && a.isAlive == b.isAlive && a.tube == b.tube
    && (HasIdentity(finals, b.identity) ==>
          a == Settle(b).(highestOrder := OrElse(LastOrder(finals, b.identity, max), b.highestOrder)))
    && (!HasIdentity(finals, b.identity) ==> a == b)
  }

  /** `after` is `before` with the final roots `finals` applied, root by root. */
  predicate FinalizedBy(before: seq<Root>, after: seq<Root>, finals: seq<Root>, max: int) {
    && |after| == |before|
    && forall i :: 0 <= i < |before| ==> FinalizedFrom(before[i], after[i], finals, max)
  }

  /** Applying one more final root to a stored root extends what the earlier ones did. */
  lemma FinalizedFromStep(b: Root, a: Root, prefix: seq<Root>, last: Root, max: int)
    requires FinalizedFrom(b, a, prefix, max)
    ensures FinalizedFrom(b, if a.identity == last.identity then FinalizeOne(a, last, max) else a, prefix + [last], max)
  {
    HasIdentityAppend(prefix, last);
    LastOrderAppend(prefix, last, b.identity, max);
  }

  /** `finalize_root` for each final root in order, with the identities it reported as not
      found (the source logs an error for each). Stored roots whose identity is observed
      are finalized with their status kept; the others are untouched. */
  function FinalizeAll(t: Tube, finals: seq<Root>): (r: (Tube, seq<RootIdentity>))
    ensures r.0 == t.(roots := r.0.roots)
    ensures FinalizedBy(t.roots, r.0.roots, finals, t.maxSessionCount)
    ensures forall id :: id in r.1 <==> HasIdentity(finals, id) && !HasIdentity(t.roots, id)
    ensures (forall id :: HasIdentity(finals, id) ==> HasIdentity(t.roots, id)) ==> r.1 == []
    decreases |finals|
  {
    if |finals| == 0 then (t, [])
    else
      var prefix := finals[..|finals| - 1];
      var last := finals[|finals| - 1];
      var (t1, misses) := FinalizeAll(t, prefix);
      var (t2, found) := FinalizeRoot(t1, last);
      assert finals == prefix + [last];
      FinalizedByStep(t.roots, t1, prefix, last);
      MissesStep(t.roots, t1.roots, misses, prefix, last);
      (t2, if found then misses else misses + [last.identity])
  }

  /** Finalizing one more root extends what the earlier final roots finalized. */
  lemma FinalizedByStep(before: seq<Root>, t1: Tube, prefix: seq<Root>, last: Root)
    requires FinalizedBy(before, t1.roots, prefix, t1.maxSessionCount)
    ensures FinalizedBy(before, FinalizeRoot(t1, last).0.roots, prefix + [last], t1.maxSessionCount)
  {
    var after := FinalizeRoot(t1, last).0.roots;
    forall i | 0 <= i < |before|
      ensures FinalizedFrom(before[i], after[i], prefix + [last], t1.maxSessionCount)
    {
      FinalizedFromStep(before[i], t1.roots[i], prefix, last, t1.maxSessionCount);
    }
  }

  /** The identities reported as missing after one more root: the earlier misses, plus the
      new root's identity when no stored root has it. */
  lemma MissesStep(before: seq<Root>, after: seq<Root>, misses: seq<RootIdentity>, prefix: seq<Root>, last: Root)
    requires |after| == |before|
    requires forall i :: 0 <= i < |before| ==> after[i].identity == before[i].identity
    requires forall id :: id in misses <==> HasIdentity(prefix, id) && !HasIdentity(before, id)
    requires (forall id :: HasIdentity(prefix, id) ==> HasIdentity(before, id)) ==> misses == []
    ensures var m := if HasIdentity(after, last.identity) then misses else misses + [last.identity];
            && (forall id :: id in m <==> HasIdentity(prefix + [last], id) && !HasIdentity(before, id))
            && ((forall id :: HasIdentity(prefix + [last], id) ==> HasIdentity(before, id)) ==> m == [])
  {
    HasIdentityAppend(prefix, last);
    SameIdentitySet(before, after);
  }

  /** `a` is `b` with at most its two tip counts changed. */
  predicate SameButTipCounts(a: Root, b: Root) {
    && a.identity == b.identity && a.session == b.session && a.goneSession == b.goneSession
    && a.isAlive == b.isAlive && a.anomaly == b.anomaly && a.order == b.order
    && a.avgDiameter == b.avgDiameter && a.tube == b.tube && a.highestOrder == b.highestOrder
    && a.censored == b.censored
  }

  /** The tip-count attributes set after the statistics are computed: every root gets the
      count of its birth cohort, and a root with a truthy gone session the count at its
      gone key. */
  function Annotate(roots: seq<Root>, stats: map<TipKey, int>): (r: seq<Root>)
    requires forall i :: 0 <= i < |roots| ==> roots[i].TipIdentity() in stats
    requires forall i :: 0 <= i < |roots| && GoneTruthy(roots[i].goneSession) ==> roots[i].GoneKey() in stats
    ensures |r| == |roots|
    ensures forall i :: 0 <= i < |roots| ==> SameButTipCounts(r[i], roots[i])
    ensures forall i :: 0 <= i < |roots| ==> r[i].aliveTipsAtBirth == Some(stats[roots[i].TipIdentity()])
    ensures forall i :: 0 <= i < |roots| && GoneTruthy(roots[i].goneSession) ==>
              r[i].aliveTipsAtGone == Some(stats[roots[i].GoneKey()])
    ensures forall i :: 0 <= i < |roots| && !GoneTruthy(roots[i].goneSession) ==>
              r[i].aliveTipsAtGone == roots[i].aliveTipsAtGone
  {
    seq(|roots|, i requires 0 <= i < |roots| =>
      var root := roots[i].(aliveTipsAtBirth := Some(stats[roots[i].TipIdentity()]));
      if GoneTruthy(roots[i].goneSession) then root.(aliveTipsAtGone := Some(stats[roots[i].GoneKey()])) else root)
  }

  /** Two root sequences that agree index by index on identity and tube number agree on
      which identities they hold, on their uniqueness, and on carrying the tube's number. */
  lemma SameIdentities(a: seq<Root>, b: seq<Root>, tubeNumber: Value)
    requires |a| == |b|
    requires forall i :: 0 <= i < |a| ==> a[i].identity == b[i].identity && a[i].tube == b[i].tube
    ensures forall id :: HasIdentity(a, id) <==> HasIdentity(b, id)
    ensures UniqueIdentities(a) <==> UniqueIdentities(b)
    ensures AllInTube(a, tubeNumber) <==> AllInTube(b, tubeNumber)
  {
    SameIdentitySet(a, b);
  }

  /** Reference: the stored record of `id` once all of `roots` are reconciled into a tube
      numbered `tubeNumber` and the roots seen in session `max` are finalized. It is the
      merged history of `id`; when `id` was seen in session `max`, its gone session and
      censoring are settled by its status and its highest order is the order of its last
      sighting in that session. */
  function FinalRecord(roots: seq<Root>, id: RootIdentity, tubeNumber: Value, max: int): Root
    requires HasIdentity(roots, id)
  {
    var m := Merged(roots, id, tubeNumber).value;
    match LastOrder(roots, id, max)
    case None => m
    case Some(o) => Settle(m).(highestOrder := o)
  }

  /** The final record keeps the status its sightings give it (`History.StatusHistory`) and
      the gone session they give it, except that finalization sets the gone session of a
      root alive in the last session to 0 and settles its censoring. */
  lemma FinalRecordStatus(roots: seq<Root>, id: RootIdentity, tubeNumber: Value, max: int)
    requires HasIdentity(roots, id)
    ensures StatusHistory(roots, id, Merged(roots, id, tubeNumber).value)
    ensures var r := FinalRecord(roots, id, tubeNumber, max);
            var m := Merged(roots, id, tubeNumber).value;
            && r.isAlive == m.isAlive
            && r.identity == id && r.tube == Some(tubeNumber)
            && (LastOrder(roots, id, max).Some? && m.isAlive == Alive ==> r.goneSession == At(0) && r.censored == Num(1))
            && (LastOrder(roots, id, max).Some? && m.isAlive == Gone ==> r.goneSession == m.goneSession && r.censored == Num(0))
            && (LastOrder(roots, id, max).None? || m.isAlive != Alive ==> r.goneSession == m.goneSession)
  {
    MergedHistory(roots, id, tubeNumber);
  }

  /** A single alive sighting in the last session yields one alive root, with the gone
      session 0, censored, and its order as its highest order. */
  lemma OneAliveSighting(tubeNumber: Value, rows: seq<Row>, x: Root)
    requires x.isAlive == Alive && x.session >= 1
    ensures var t := Reconciled(tubeNumber, rows, [x]);
            && |t.roots| == 1 && t.roots[0].identity == x.identity
            && t.roots[0].isAlive == Alive && t.roots[0].goneSession == At(0)
            && t.roots[0].censored == Num(1) && t.roots[0].highestOrder == x.order
  {
    var t := Reconciled(tubeNumber, rows, [x]);
    assert [x][..0] == [];
    assert FirstIds([x]) == [x.identity];
    ReconciledRecords(tubeNumber, rows, [x]);
    assert |t.roots| == |Ids(t.roots)| == 1;
    assert LastOrder([x], x.identity, MaxSession([x])) == Some(x.order);
    FinalRecordStatus([x], x.identity, tubeNumber, MaxSession([x]));
  }

  /** A stored root that finalization touched is the final record of its identity. */
  lemma FinalizedIsFinalRecord(roots: seq<Root>, finals: seq<Root>, b: Root, a: Root, tubeNumber: Value, max: int)
    requires finals == FinalRoots(roots, max)
    requires Merged(roots, b.identity, tubeNumber) == Some(b)
    requires FinalizedFrom(b, a, finals, max)
    ensures HasIdentity(roots, a.identity) && a == FinalRecord(roots, a.identity, tubeNumber, max)
  {
    var id := b.identity;
    LastOrderOfFinals(roots, max, id);
    if HasIdentity(finals, id) {
      var k :| 0 <= k < |finals| && finals[k].identity == id;
      assert finals[k] in finals;
      assert SeenAt(finals, k, id, max);
    }
    if LastOrder(finals, id, max).Some? {
      var k :| SeenAt(finals, k, id, max);
      assert HasIdentity(finals, id);
    }
  }

  /** The tube after reconciliation and finalization, before annotation. */
  function Reconciled(tubeNumber: Value, rows: seq<Row>, roots: seq<Root>): (t: Tube)
    ensures UniqueIdentities(t.roots)
    ensures AllInTube(t.roots, tubeNumber)
    ensures t.tubeNumber == tubeNumber
    ensures t.maxSessionCount == MaxSession(roots) && t.sessionDates == SessionDates(rows)
    ensures forall id :: HasIdentity(t.roots, id) <==> HasIdentity(roots, id)
    ensures forall i :: 0 <= i < |t.roots| && LastOrder(roots, t.roots[i].identity, MaxSession(roots)).Some? ==>
              && Finalized(t.roots[i])
              && t.roots[i].highestOrder == LastOrder(roots, t.roots[i].identity, MaxSession(roots)).value
  {
    var max := MaxSession(roots);
    var t0 := NewTube(tubeNumber).(maxSessionCount := max, sessionDates := SessionDates(rows));
    var t1 := InsertAll(t0, roots);
    var finals := FinalRoots(roots, max);
    var t2 := FinalizeAll(t1, finals).0;
    SameIdentities(t1.roots, t2.roots, tubeNumber);
    FinalizeMeetsLastSession(roots, t1.roots, t2.roots, max);
    t2
  }

  /** The roots of `stored` are one per identity of `roots`, in the order of first sighting,
      and each is the final record of its identity. */
  ghost predicate FinalRecords(stored: seq<Root>, roots: seq<Root>, tubeNumber: Value, max: int) {
    && Ids(stored) == FirstIds(roots)
    && forall i :: 0 <= i < |stored| ==>
         HasIdentity(roots, stored[i].identity) && stored[i] == FinalRecord(roots, stored[i].identity, tubeNumber, max)
  }

  /** Reconciliation and finalization leave exactly the final records, in the order of first
      sighting. */
  lemma ReconciledRecords(tubeNumber: Value, rows: seq<Row>, roots: seq<Root>)
    ensures FinalRecords(Reconciled(tubeNumber, rows, roots).roots, roots, tubeNumber, MaxSession(roots))
  {
    var max := MaxSession(roots);
    var t0 := NewTube(tubeNumber).(maxSessionCount := max, sessionDates := SessionDates(rows));
    assert t0.roots == [] && [] + roots == roots;
    var t1 := InsertAll(t0, roots);
    var t2 := FinalizeAll(t1, FinalRoots(roots, max)).0;
    FinalizeMeetsFinalRecord(roots, t1.roots, t2.roots, tubeNumber, max);
  }

  /** Finalizing against the last session's roots finalizes every root seen in that session
      and gives it the order of its last sighting there as its highest order. */
  lemma FinalizeMeetsLastSession(roots: seq<Root>, before: seq<Root>, after: seq<Root>, max: int)
    requires FinalizedBy(before, after, FinalRoots(roots, max), max)
    ensures forall i :: 0 <= i < |after| && LastOrder(roots, after[i].identity, max).Some? ==>
              && Finalized(after[i])
              && after[i].highestOrder == LastOrder(roots, after[i].identity, max).value
  {
    var finals := FinalRoots(roots, max);
    forall i | 0 <= i < |after| && LastOrder(roots, after[i].identity, max).Some?
      ensures Finalized(after[i]) && after[i].highestOrder == LastOrder(roots, after[i].identity, max).value
    {
      var id := after[i].identity;
      LastOrderOfFinals(roots, max, id);
      var j :| SeenAt(finals, j, id, max);
      assert HasIdentity(finals, before[i].identity);
    }
  }

  /** Finalizing the merged histories gives the final records. */
  lemma FinalizeMeetsFinalRecord(roots: seq<Root>, before: seq<Root>, after: seq<Root>, tubeNumber: Value, max: int)
    requires HistoryOf(before, roots, tubeNumber)
    requires FinalizedBy(before, after, FinalRoots(roots, max), max)
    ensures FinalRecords(after, roots, tubeNumber, max)
  {
    assert Ids(after) == Ids(before);
    forall i | 0 <= i < |after|
      ensures HasIdentity(roots, after[i].identity) && after[i] == FinalRecord(roots, after[i].identity, tubeNumber, max)
    {
      FinalizedIsFinalRecord(roots, FinalRoots(roots, max), before[i], after[i], tubeNumber, max);
    }
  }

  /** Every root observed in the last session is in the tube when it is finalized, so
      `finalize_root` never reports a miss. */
  lemma NoFinalizeMisses(tubeNumber: Value, rows: seq<Row>, roots: seq<Root>)
    ensures var max := MaxSession(roots);
            var t0 := NewTube(tubeNumber).(maxSessionCount := max, sessionDates := SessionDates(rows));
            FinalizeAll(InsertAll(t0, roots), FinalRoots(roots, max)).1 == []
  {
    var max := MaxSession(roots);
    var t0 := NewTube(tubeNumber).(maxSessionCount := max, sessionDates := SessionDates(rows));
    var t1 := InsertAll(t0, roots);
    var finals := FinalRoots(roots, max);
    forall id | HasIdentity(finals, id) ensures HasIdentity(t1.roots, id) {
      var j :| 0 <= j < |finals| && finals[j].identity == id;
      assert finals[j] in finals;
      var i :| 0 <= i < |roots| && roots[i] == finals[j];
      assert HasIdentity(roots, id);
    }
  }

  /** Attaching given statistics to the tube and annotating its roots with them; the
      statistics must cover every birth cohort and every truthy gone key. */
  function Attach(t: Tube, stats: map<TipKey, int>): (r: Tube)
    requires forall i :: 0 <= i < |t.roots| ==> t.roots[i].TipIdentity() in stats
    requires forall i :: 0 <= i < |t.roots| && GoneTruthy(t.roots[i].goneSession) ==> t.roots[i].GoneKey() in stats
    ensures r == t.(roots := r.roots, tipStats := Some(stats))
    ensures |r.roots| == |t.roots|
    ensures forall i :: 0 <= i < |t.roots| ==> SameButTipCounts(r.roots[i], t.roots[i])
    ensures forall i :: 0 <= i < |r.roots| ==>
              && r.roots[i].TipIdentity() in stats
              && r.roots[i].aliveTipsAtBirth == Some(stats[r.roots[i].TipIdentity()])
    ensures forall i :: 0 <= i < |r.roots| && GoneTruthy(r.roots[i].goneSession) ==>
              && r.roots[i].GoneKey() in stats
              && r.roots[i].aliveTipsAtGone == Some(stats[r.roots[i].GoneKey()])
  {
    var annotated := Annotate(t.roots, stats);
    assert forall i :: 0 <= i < |annotated| ==>
             annotated[i].TipIdentity() == t.roots[i].TipIdentity() && annotated[i].goneSession == t.roots[i].goneSession;
    t.(roots := annotated, tipStats := Some(stats))
  }

  /** The last step of `process_worksheet`: compute the tip statistics of the tube's roots,
      attach them to the tube, and annotate every root with its counts. The lookups never
      miss, since the statistics cover every birth cohort and every gone key. */
  function AttachTipStats(t: Tube): (r: Tube)
    ensures r == t.(roots := r.roots, tipStats := r.tipStats)
    ensures r.tipStats == Some(TipStats(r.roots))
    ensures |r.roots| == |t.roots|
    ensures forall i :: 0 <= i < |t.roots| ==> SameButTipCounts(r.roots[i], t.roots[i])
    ensures forall i :: 0 <= i < |r.roots| ==>
              && r.roots[i].TipIdentity() in r.tipStats.value
              && r.roots[i].aliveTipsAtBirth == Some(r.tipStats.value[r.roots[i].TipIdentity()])
    ensures forall i :: 0 <= i < |r.roots| && GoneTruthy(r.roots[i].goneSession) ==>
              && r.roots[i].GoneKey() in r.tipStats.value
              && r.roots[i].aliveTipsAtGone == Some(r.tipStats.value[r.roots[i].GoneKey()])
  {
    var r := Attach(t, TipStats(t.roots));
    TipCountsKeepStats(t.roots, r.roots);
    r
  }

  /** Changing only the tip counts of the roots leaves their tip statistics as they were. */
  lemma TipCountsKeepStats(a: seq<Root>, b: seq<Root>)
    requires |b| == |a|
    requires forall i :: 0 <= i < |a| ==> SameButTipCounts(b[i], a[i])
    ensures TipStats(b) == TipStats(a)
  {
    assert SameTipData(a, b);
    TipStatsAgree(a, b);
  }

  /** The statistics attached to the tube are those `tip_stats` computes over its roots. */
  lemma AttachedStatsAreTipStats(t: Tube)
    ensures AttachTipStats(t).tipStats == Some(TipStats(t.roots))
  {
  }

  /** The roots built from the rows match them index by index. */
  lemma RootsMatchRows(rows: seq<Row>, roots: seq<Root>)
    requires RootsFromRows(rows) == Success(roots)
    ensures RootsOf(roots, rows)
  {
  }

  /** Every stored root whose identity was observed in session `max` of `rows` is finalized
      and carries the root notes of the last such row as its highest order. */
  predicate FinalizedAgainst(troots: seq<Root>, rows: seq<Row>, max: int) {
    forall i :: 0 <= i < |troots| && LastNotes(rows, troots[i].identity, max).Some? ==>
      && Finalized(troots[i])
      && troots[i].highestOrder == LastNotes(rows, troots[i].identity, max).value
  }

  /** Attaching the tip counts keeps what reconciliation and finalization established:
      the sessions, the identities and their uniqueness, the tube number of every root, and
      the finalization of the roots of the last session. */
  lemma AttachKeepsReconciled(tubeNumber: Value, rows: seq<Row>, t: Tube, result: Tube)
    requires result.tubeNumber == t.tubeNumber && result.maxSessionCount == t.maxSessionCount
    requires result.sessionDates == t.sessionDates
    requires |result.roots| == |t.roots|
    requires forall i :: 0 <= i < |t.roots| ==> SameButTipCounts(result.roots[i], t.roots[i])
    requires BuiltFrom(t, tubeNumber, rows)
    ensures BuiltFrom(result, tubeNumber, rows)
  {
    SameIdentities(t.roots, result.roots, tubeNumber);
  }

  /** The identities of a tube holding exactly the roots' identities are the rows'. */
  lemma IdentitiesFromRows(rows: seq<Row>, roots: seq<Root>, troots: seq<Root>)
    requires |roots| == |rows|
    requires forall i :: 0 <= i < |rows| ==> roots[i].identity == RowIdentity(rows[i])
    requires forall id :: HasIdentity(troots, id) <==> HasIdentity(roots, id)
    ensures forall id :: HasIdentity(troots, id) <==> exists i :: 0 <= i < |rows| && RowIdentity(rows[i]) == id
  {
    forall id | HasIdentity(troots, id) ensures exists i :: 0 <= i < |rows| && RowIdentity(rows[i]) == id {
      var i :| 0 <= i < |roots| && roots[i].identity == id;
      assert RowIdentity(rows[i]) == id;
    }
    forall id | exists i :: 0 <= i < |rows| && RowIdentity(rows[i]) == id ensures HasIdentity(troots, id) {
      var i :| 0 <= i < |rows| && RowIdentity(rows[i]) == id;
      assert roots[i].identity == id;
    }
  }

  /** The bookkeeping of `process_worksheet` once every row has become a root: record the
      largest session (at least 1) and the first date of each session, reconcile every root
      into the tube in row order, and finalize the roots of the last session. */
  function ReconcileRows(tubeNumber: Value, rows: seq<Row>, roots: seq<Root>): (t: Tube)
    requires RootsOf(roots, rows)
    ensures BuiltFrom(t, tubeNumber, rows)
    ensures Rebuilt(t.roots, roots, tubeNumber, t.maxSessionCount)
  {
    var t := Reconciled(tubeNumber, rows, roots);
    assert forall j :: 0 <= j < |rows| ==> rows[j].session == roots[j].session;
    IdentitiesFromRows(rows, roots, t.roots);
    ReconciledAgainstRows(tubeNumber, rows, roots);
    ReconciledIsRebuilt(tubeNumber, rows, roots);
    t
  }

  /** The roots of the last session are finalized against the rows they came from. */
  lemma ReconciledAgainstRows(tubeNumber: Value, rows: seq<Row>, roots: seq<Root>)
    requires RootsOf(roots, rows)
    ensures FinalizedAgainst(Reconciled(tubeNumber, rows, roots).roots, rows, MaxSession(roots))
  {
    forall id { LastOrderOfRows(roots, rows, id, MaxSession(roots)); }
  }

  /** The stored roots are one per identity of `roots`, in the order of first sighting, and
      each is the final record of its identity up to the two tip counts. */
  ghost predicate Rebuilt(stored: seq<Root>, roots: seq<Root>, tubeNumber: Value, max: int) {
    && Ids(stored) == FirstIds(roots)
    && forall i :: 0 <= i < |stored| ==>
         HasIdentity(roots, stored[i].identity)
         && SameButTipCounts(stored[i], FinalRecord(roots, stored[i].identity, tubeNumber, max))
  }

  /** The reconciled tube holds exactly the final records, in the order of first sighting. */
  lemma ReconciledIsRebuilt(tubeNumber: Value, rows: seq<Row>, roots: seq<Root>)
    ensures var t := Reconciled(tubeNumber, rows, roots);
            Rebuilt(t.roots, roots, tubeNumber, t.maxSessionCount)
  {
    ReconciledRecords(tubeNumber, rows, roots);
  }

  /** Setting the tip counts keeps the stored roots the final records of their identities. */
  lemma AnnotationKeepsRebuilt(before: seq<Root>, after: seq<Root>, roots: seq<Root>, tubeNumber: Value, max: int)
    requires |after| == |before|
    requires forall i :: 0 <= i < |before| ==> SameButTipCounts(after[i], before[i])
    requires Rebuilt(before, roots, tubeNumber, max)
    ensures Rebuilt(after, roots, tubeNumber, max)
  {
    assert Ids(after) == Ids(before);
  }

  /** What `process_worksheet` establishes about the tube it builds from `rows`: the tube's
      number, the largest session (at least 1, and 1 or some row's session, that is a session
      with a date), the first date of each session, unique identities that are exactly the rows' and all carry the tube's
      number, and the roots of the last session finalized against the rows. */
  ghost predicate BuiltFrom(t: Tube, tubeNumber: Value, rows: seq<Row>) {
    && t.tubeNumber == tubeNumber && t.maxSessionCount >= 1
    && (forall i :: 0 <= i < |rows| ==> rows[i].session <= t.maxSessionCount)
    && (t.maxSessionCount == 1 || t.maxSessionCount in t.sessionDates)
    && t.sessionDates == SessionDates(rows)
    && UniqueIdentities(t.roots) && AllInTube(t.roots, tubeNumber)
    && (forall id :: HasIdentity(t.roots, id) <==> exists i :: 0 <= i < |rows| && RowIdentity(rows[i]) == id)
    && FinalizedAgainst(t.roots, rows, t.maxSessionCount)
  }

  /** The tube carries the tip statistics of its own roots, and every root carries the count
      of its birth cohort and, when it has a truthy gone session, the count at its gone key. */
  predicate Annotated(t: Tube) {
    && t.tipStats == Some(TipStats(t.roots))
    && (forall i :: 0 <= i < |t.roots| ==>
          && t.roots[i].TipIdentity() in t.tipStats.value
          && t.roots[i].aliveTipsAtBirth == Some(t.tipStats.value[t.roots[i].TipIdentity()]))
    && (forall i :: 0 <= i < |t.roots| && GoneTruthy(t.roots[i].goneSession) ==>
          && t.roots[i].GoneKey() in t.tipStats.value
          && t.roots[i].aliveTipsAtGone == Some(t.tipStats.value[t.roots[i].GoneKey()]))
  }

  /** Attaching the tip statistics annotates the tube. */
  lemma AttachAnnotates(t: Tube)
    ensures Annotated(AttachTipStats(t))
  {
  }
}
