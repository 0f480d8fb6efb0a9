/** Tip survivorship (`calculate_alive_tip_stats`, `calculate_gone_tip_stats`, `tip_stats`):
    how many tips were born per (birth session, location), how many died per (gone session,
    location), and per location a running total over its sessions in increasing order. */
module Survivorship {
  import opened Values
  import opened Roots
  import opened Counting

  /** The tip identity of every root, in tube order. */
  function TipKeys(roots: seq<Root>): (ks: seq<TipKey>)
    ensures |ks| == |roots|
    ensures forall i :: 0 <= i < |roots| ==> ks[i] == roots[i].TipIdentity()
  {
    seq(|roots|, i requires 0 <= i < |roots| => roots[i].TipIdentity())
  }

  /** `calculate_alive_tip_stats`: per tip identity, the number of roots born there. Every
      root's tip identity is a key and every count is at least 1. */
  function AliveTipStats(roots: seq<Root>): (m: map<TipKey, int>)
    ensures forall k :: k in m <==> exists i :: 0 <= i < |roots| && roots[i].TipIdentity() == k
    ensures forall k :: k in m ==> m[k] >= 1
    ensures forall k :: Get0(m, k) == BornCount(roots, k) as int
  {
    var ks := TipKeys(roots);
    var m := Tally(ks, false);
    assert forall k :: k in m ==> multiset(ks)[k] >= 1;
    forall k ensures multiset(ks)[k] == BornCount(roots, k) {
      TipKeysMultiplicity(roots, k);
    }
    m
  }

  /** The number of roots whose tip identity is `k`. */
  function BornCount(roots: seq<Root>, k: TipKey): nat
    decreases |roots|
  {
    if |roots| == 0 then 0
    else BornCount(roots[..|roots| - 1], k) + (if roots[|roots| - 1].TipIdentity() == k then 1 else 0)
  }

  /** A tip identity occurs among the tip keys once per root born under it. */
  lemma {:induction false} TipKeysMultiplicity(roots: seq<Root>, k: TipKey)
    ensures multiset(TipKeys(roots))[k] == BornCount(roots, k)
    decreases |roots|
  {
    if |roots| > 0 {
      var n := |roots| - 1;
      TipKeysMultiplicity(roots[..n], k);
      assert TipKeys(roots) == TipKeys(roots[..n]) + [roots[n].TipIdentity()];
    }
  }

  /** The alive counts sum to the number of roots. */
  lemma AliveTipSum(roots: seq<Root>)
    ensures MapSum(AliveTipStats(roots)) == |roots|
  {
    TallySum(TipKeys(roots), false);
  }

  /** The keys under which `calculate_gone_tip_stats` counts a death: for each root, in tube
      order, whose tip identity is a key of `din` and whose gone session is truthy, its
      (gone session, location). The source walks the keys of `din` in sorted order and, for
      each, the roots with that tip identity; that only changes the order in which deaths
      are counted, not the counts. */
  function GoneKeys(din: map<TipKey, int>, roots: seq<Root>): (ks: seq<TipKey>)
    ensures forall k :: k in ks <==>
              exists i :: 0 <= i < |roots| && roots[i].TipIdentity() in din
                          && GoneTruthy(roots[i].goneSession) && roots[i].GoneKey() == k
    decreases |roots|
  {
    if |roots| == 0 then []
    else
      var prefix := roots[..|roots| - 1];
      var r := roots[|roots| - 1];
      var ks := GoneKeys(din, prefix);
      assert forall i :: 0 <= i < |prefix| ==> prefix[i] == roots[i];
      if r.TipIdentity() in din && GoneTruthy(r.goneSession) then ks + [r.GoneKey()] else ks
  }

  /** `calculate_gone_tip_stats(din, tube)`: per (gone session, location), minus the number
      of roots that died there. Every count is at most -1. */
  function GoneTipStats(din: map<TipKey, int>, roots: seq<Root>): (m: map<TipKey, int>)
    ensures forall k :: k in m <==>
              exists i :: 0 <= i < |roots| && roots[i].TipIdentity() in din
                          && GoneTruthy(roots[i].goneSession) && roots[i].GoneKey() == k
    ensures forall k :: k in m ==> m[k] <= -1
    ensures forall k :: Get0(m, k) == -(DiedCount(din, roots, k) as int)
  {
    var ks := GoneKeys(din, roots);
    var m := Tally(ks, true);
    assert forall k :: k in m ==> multiset(ks)[k] >= 1;
    forall k ensures multiset(ks)[k] == DiedCount(din, roots, k) {
      GoneKeysMultiplicity(din, roots, k);
    }
    m
  }

  /** The number of roots whose tip identity is a key of `din`, whose gone session is truthy
      and whose gone key is `k`. */
  function DiedCount(din: map<TipKey, int>, roots: seq<Root>, k: TipKey): nat
    decreases |roots|
  {
    if |roots| == 0 then 0
    else
      var r := roots[|roots| - 1];
      DiedCount(din, roots[..|roots| - 1], k)
        + (if r.TipIdentity() in din && GoneTruthy(r.goneSession) && r.GoneKey() == k then 1 else 0)
  }

  /** A gone key occurs among the visited gone keys once per root counted as dying there. */
  lemma {:induction false} GoneKeysMultiplicity(din: map<TipKey, int>, roots: seq<Root>, k: TipKey)
    ensures multiset(GoneKeys(din, roots))[k] == DiedCount(din, roots, k)
    decreases |roots|
  {
    if |roots| > 0 {
      GoneKeysMultiplicity(din, roots[..|roots| - 1], k);
    }
  }

  /** The number of roots whose gone session is truthy. */
  function GoneCount(roots: seq<Root>): nat
    decreases |roots|
  {
    if |roots| == 0 then 0
    else GoneCount(roots[..|roots| - 1]) + (if GoneTruthy(roots[|roots| - 1].goneSession) then 1 else 0)
  }

  /** When `din` holds every root's tip identity, one death is counted per root with a
      truthy gone session. */
  lemma {:induction false} GoneKeysCount(din: map<TipKey, int>, roots: seq<Root>)
    requires forall i :: 0 <= i < |roots| ==> roots[i].TipIdentity() in din
    ensures |GoneKeys(din, roots)| == GoneCount(roots)
    decreases |roots|
  {
    if |roots| > 0 {
      GoneKeysCount(din, roots[..|roots| - 1]);
    }
  }

  /** With the alive counts as `din`, the gone counts sum to minus the number of roots with
      a truthy gone session. */
  lemma GoneTipSum(roots: seq<Root>)
    ensures MapSum(GoneTipStats(AliveTipStats(roots), roots)) == -(GoneCount(roots) as int)
  {
    var alive := AliveTipStats(roots);
    GoneKeysCount(alive, roots);
    TallySum(GoneKeys(alive, roots), true);
  }

  /** With the alive counts as `din`, the gone keys are exactly the (gone session, location)
      pairs of the roots with a truthy gone session. */
  lemma GoneKeysWhenAlive(roots: seq<Root>)
    ensures forall k :: k in GoneTipStats(AliveTipStats(roots), roots) <==>
              exists i :: 0 <= i < |roots| && GoneTruthy(roots[i].goneSession) && roots[i].GoneKey() == k
  {
    var alive := AliveTipStats(roots);
    assert forall i :: 0 <= i < |roots| ==> roots[i].TipIdentity() in alive;
  }

  predicate StrictlyIncreasing(ss: seq<int>) {
    forall i, j :: 0 <= i < j < |ss| ==> ss[i] < ss[j]
  }

  /** Some element of a non-empty set. */
  ghost function AnyOf<T>(s: set<T>): (y: T)
    requires s != {}
    ensures y in s
  {
    var y :| y in s; y
  }

  /** A non-empty finite set of integers has a least element. */
  lemma {:induction false} MinExists(s: set<int>)
    requires s != {}
    ensures exists m :: m in s && forall x :: x in s ==> m <= x
    decreases s
  {
    var y := AnyOf(s);
    var rest := s - {y};
    if rest == {} {
      assert forall x :: x in s ==> x in rest || x == y;
    } else {
      MinExists(rest);
      var m :| m in rest && forall x :: x in rest ==> m <= x;
      assert forall x :: x in s ==> x in rest || x == y;
      if y < m {
        assert forall x :: x in s ==> y <= x;
      } else {
        assert m in s && forall x :: x in s ==> m <= x;
      }
    }
  }

  /** `list(set(xs))` followed by `sort()`: the elements of `s` in increasing order. */
  function SortedDistinct(s: set<int>): (r: seq<int>)
    ensures StrictlyIncreasing(r)
    ensures forall x :: x in r <==> x in s
    decreases s
  {
    if s == {} then []
    else
      MinExists(s);
      var m :| m in s && forall x :: x in s ==> m <= x;
      var rest := SortedDistinct(s - {m});
      assert forall i :: 0 <= i < |rest| ==> m < rest[i] by {
        forall i | 0 <= i < |rest| ensures m < rest[i] {
          assert rest[i] in s - {m};
        }
      }
      [m] + rest
  }

  /** The sessions at location `L` among the keys `keys`. */
  function SessionsAt(keys: set<TipKey>, L: Value): (r: set<int>)
    ensures forall s :: s in r <==> (s, L) in keys
  {
    var r := set k | k in keys && k.1 == L :: k.0;
    assert forall s :: (s, L) in keys ==> (s, L).0 in r;
    r
  }

  /** What one session contributes at location `L`: its alive count and its gone count,
      each only when present. */
  function Delta(alive: map<TipKey, int>, gone: map<TipKey, int>, s: int, L: Value): int {
    Get0(alive, (s, L)) + Get0(gone, (s, L))
  }

  /** The sum of the contributions of the sessions `ss` at location `L`. */
  function CumDelta(alive: map<TipKey, int>, gone: map<TipKey, int>, ss: seq<int>, L: Value): int
    decreases |ss|
  {
    if |ss| == 0 then 0
    else CumDelta(alive, gone, ss[..|ss| - 1], L) + Delta(alive, gone, ss[|ss| - 1], L)
  }

  /** Every (session, L) key of `ss` holds in `m` the sum of the contributions of that
      session and all sessions before it. */
  predicate PrefixSums(m: map<TipKey, int>, alive: map<TipKey, int>, gone: map<TipKey, int>, ss: seq<int>, L: Value) {
    forall i :: 0 <= i < |ss| ==> (ss[i], L) in m && m[(ss[i], L)] == CumDelta(alive, gone, ss[..i + 1], L)
  }

  /** The running total at location `L` over the sessions `ss`: one key per session, each
      holding the total of the sessions up to it (see `RunningTotalsSums`). */
  function RunningTotals(alive: map<TipKey, int>, gone: map<TipKey, int>, ss: seq<int>, L: Value): (m: map<TipKey, int>)
    ensures forall k :: k in m <==> k.1 == L && k.0 in ss
    decreases |ss|
  {
    if |ss| == 0 then map[]
    else
      var prefix := ss[..|ss| - 1];
      var last := ss[|ss| - 1];
      assert forall x :: x in ss <==> x in prefix || x == last;
      RunningTotals(alive, gone, prefix, L)[(last, L) := CumDelta(alive, gone, ss, L)]
  }

  /** Appending a later session leaves the totals of the earlier sessions as they were. */
  lemma RunningTotalsKeep(alive: map<TipKey, int>, gone: map<TipKey, int>, ss: seq<int>, L: Value, i: int)
    requires StrictlyIncreasing(ss)
    requires 0 <= i < |ss| - 1
    requires PrefixSums(RunningTotals(alive, gone, ss[..|ss| - 1], L), alive, gone, ss[..|ss| - 1], L)
    ensures (ss[i], L) in RunningTotals(alive, gone, ss, L)
    ensures RunningTotals(alive, gone, ss, L)[(ss[i], L)] == CumDelta(alive, gone, ss[..i + 1], L)
  {
    var n := |ss| - 1;
    var prefix := ss[..n];
    var mp := RunningTotals(alive, gone, prefix, L);
    var m := RunningTotals(alive, gone, ss, L);
    assert m == mp[(ss[n], L) := CumDelta(alive, gone, ss, L)];
    assert prefix[i] == ss[i];
    assert ss[i] < ss[n];
    assert (ss[i], L) in mp;
    assert m[(ss[i], L)] == mp[(ss[i], L)];
    SliceOfPrefix(ss, n, i + 1);
  }

  /** A prefix of a prefix is a prefix. */
  lemma SliceOfPrefix<T>(s: seq<T>, n: nat, j: nat)
    requires j <= n <= |s|
    ensures s[..n][..j] == s[..j]
  {
  }

  /** The last session's total is the change over all the sessions. */
  lemma RunningTotalsLast(alive: map<TipKey, int>, gone: map<TipKey, int>, ss: seq<int>, L: Value)
    requires |ss| > 0
    ensures (ss[|ss| - 1], L) in RunningTotals(alive, gone, ss, L)
    ensures RunningTotals(alive, gone, ss, L)[(ss[|ss| - 1], L)] == CumDelta(alive, gone, ss[..|ss|], L)
  {
    assert ss[..|ss|] == ss;
  }

  /** Over increasing sessions, each key of `RunningTotals` holds its prefix sum. */
  lemma {:induction false} RunningTotalsSums(alive: map<TipKey, int>, gone: map<TipKey, int>, ss: seq<int>, L: Value)
    requires StrictlyIncreasing(ss)
    ensures PrefixSums(RunningTotals(alive, gone, ss, L), alive, gone, ss, L)
    decreases |ss|
  {
    if |ss| > 0 {
      var n := |ss| - 1;
      assert StrictlyIncreasing(ss[..n]);
      RunningTotalsSums(alive, gone, ss[..n], L);
      forall i | 0 <= i < |ss|
        ensures (ss[i], L) in RunningTotals(alive, gone, ss, L)
                && RunningTotals(alive, gone, ss, L)[(ss[i], L)] == CumDelta(alive, gone, ss[..i + 1], L)
      {
        RunningTotalsAt(alive, gone, ss, L, i);
      }
    }
  }

  /** The total at one session, from those of the earlier sessions. */
  lemma RunningTotalsAt(alive: map<TipKey, int>, gone: map<TipKey, int>, ss: seq<int>, L: Value, i: int)
    requires StrictlyIncreasing(ss)
    requires 0 <= i < |ss|
    requires PrefixSums(RunningTotals(alive, gone, ss[..|ss| - 1], L), alive, gone, ss[..|ss| - 1], L)
    ensures (ss[i], L) in RunningTotals(alive, gone, ss, L)
    ensures RunningTotals(alive, gone, ss, L)[(ss[i], L)] == CumDelta(alive, gone, ss[..i + 1], L)
  {
    if i < |ss| - 1 {
      RunningTotalsKeep(alive, gone, ss, L, i);
    } else {
      RunningTotalsLast(alive, gone, ss, L);
    }
  }

  /** The walk of `tip_stats` for one location: a running sum over the sessions in order,
      stored after each session. It computes `RunningTotals`. */
  method WalkRunningTotals(alive: map<TipKey, int>, gone: map<TipKey, int>, ss: seq<int>, L: Value)
    returns (part: map<TipKey, int>)
    ensures part == RunningTotals(alive, gone, ss, L)
  {
    part := map[];
    var temp := 0;
    var i := 0;
    while i < |ss|
      invariant 0 <= i <= |ss|
      invariant temp == CumDelta(alive, gone, ss[..i], L)
      invariant part == RunningTotals(alive, gone, ss[..i], L)
    {
      var key := (ss[i], L);
      if key in alive {
        temp := alive[key] + temp;
      }
      if key in gone {
        temp := gone[key] + temp;
      }
      part := part[key := temp];
      ghost var next := ss[..i + 1];
      assert next[..i] == ss[..i] && next[i] == ss[i];
      i := i + 1;
    }
    assert ss[..|ss|] == ss;
  }

  /** The distinct locations of the roots, in order of first appearance. */
  function Locations(roots: seq<Root>): (locs: seq<Value>)
    ensures forall L :: L in locs <==> exists i :: 0 <= i < |roots| && roots[i].identity.location == L
    decreases |roots|
  {
    if |roots| == 0 then []
    else
      var prefix := roots[..|roots| - 1];
      var L := roots[|roots| - 1].identity.location;
      var locs := Locations(prefix);
      assert forall i :: 0 <= i < |prefix| ==> prefix[i] == roots[i];
      if L in locs then locs else locs + [L]
  }

  /** The sessions of location `L`, sorted: those of its alive keys and its gone keys. */
  function LocationSessions(alive: map<TipKey, int>, gone: map<TipKey, int>, L: Value): (ss: seq<int>)
    ensures StrictlyIncreasing(ss)
    ensures forall s :: s in ss <==> (s, L) in alive || (s, L) in gone
  {
    SortedDistinct(SessionsAt(alive.Keys + gone.Keys, L))
  }

  /** The running totals of every location of `locs`. */
  function TotalsOver(alive: map<TipKey, int>, gone: map<TipKey, int>, locs: seq<Value>): (m: map<TipKey, int>)
    ensures forall k :: k in m <==> k.1 in locs && (k in alive || k in gone)
    ensures forall L :: L in locs ==> PrefixSums(m, alive, gone, LocationSessions(alive, gone, L), L)
    decreases |locs|
  {
    if |locs| == 0 then map[]
    else
      var prefix := locs[..|locs| - 1];
      var L := locs[|locs| - 1];
      var m := TotalsOver(alive, gone, prefix);
      var part := RunningTotals(alive, gone, LocationSessions(alive, gone, L), L);
      RunningTotalsSums(alive, gone, LocationSessions(alive, gone, L), L);
      var r := m + part;
      assert forall x :: x in locs <==> x in prefix || x == L;
      forall L' | L' in locs ensures PrefixSums(r, alive, gone, LocationSessions(alive, gone, L'), L') {
        var ss := LocationSessions(alive, gone, L');
        if L' != L {
          forall i | 0 <= i < |ss| ensures (ss[i], L') !in part { }
        }
      }
      r
  }

  /** Every (session, L) key of `ss` holds in `m` the total of the session before it plus
      its own contribution; the first session's total is its own contribution. */
  ghost predicate RunningSums(m: map<TipKey, int>, alive: map<TipKey, int>, gone: map<TipKey, int>, ss: seq<int>, L: Value) {
    && (|ss| > 0 ==> (ss[0], L) in m && m[(ss[0], L)] == Delta(alive, gone, ss[0], L))
    && forall i, j :: 0 <= i < j < |ss| && j == i + 1 ==>
         && (ss[i], L) in m && (ss[j], L) in m
         && m[(ss[j], L)] == m[(ss[i], L)] + Delta(alive, gone, ss[j], L)
  }

  /** Prefix sums satisfy the running-sum recurrence. */
  lemma PrefixSumsRun(m: map<TipKey, int>, alive: map<TipKey, int>, gone: map<TipKey, int>, ss: seq<int>, L: Value)
    requires PrefixSums(m, alive, gone, ss, L)
    ensures RunningSums(m, alive, gone, ss, L)
  {
    if |ss| > 0 {
      assert ss[..1][..0] == [] && ss[..1][0] == ss[0];
      assert CumDelta(alive, gone, ss[..1], L) == CumDelta(alive, gone, [], L) + Delta(alive, gone, ss[0], L);
    }
    forall i, j | 0 <= i < j < |ss| && j == i + 1
      ensures m[(ss[j], L)] == m[(ss[i], L)] + Delta(alive, gone, ss[j], L)
    {
      assert ss[..j + 1][..j] == ss[..i + 1];
    }
  }

  /** `tip_stats`: the running totals, per location of the tube's roots, of the alive and
      gone counts. Its keys are exactly the alive and the gone keys, so every root's birth
      cohort and every truthy gone key can be looked up in it. */
  function TipStats(roots: seq<Root>): (total: map<TipKey, int>)
    ensures var alive := AliveTipStats(roots);
            forall k :: k in total <==> k in alive || k in GoneTipStats(alive, roots)
    ensures forall i :: 0 <= i < |roots| ==> roots[i].TipIdentity() in total
    ensures forall i :: 0 <= i < |roots| && GoneTruthy(roots[i].goneSession) ==> roots[i].GoneKey() in total
  {
    var alive := AliveTipStats(roots);
    var gone := GoneTipStats(alive, roots);
    GoneKeysWhenAlive(roots);
    var total := TotalsOver(alive, gone, Locations(roots));
    assert forall k :: k in alive || k in gone ==> k.1 in Locations(roots);
    total
  }

  /** At every location of the tube, `tip_stats` holds under each of the location's sessions
      the sum of the alive and gone counts of the sessions up to it, taken in increasing
      order. */
  lemma TipStatsPrefix(roots: seq<Root>, L: Value)
    requires L in Locations(roots)
    ensures var alive := AliveTipStats(roots);
            var gone := GoneTipStats(alive, roots);
            PrefixSums(TipStats(roots), alive, gone, LocationSessions(alive, gone, L), L)
  {
  }

  /** The running-total recurrence of `tip_stats`: at every location, the total under the
      first session is that session's alive plus gone count, and the total under each later
      session is the previous session's total plus its own counts. */
  lemma TipStatsRunning(roots: seq<Root>, L: Value)
    requires L in Locations(roots)
    ensures var alive := AliveTipStats(roots);
            var gone := GoneTipStats(alive, roots);
            RunningSums(TipStats(roots), alive, gone, LocationSessions(alive, gone, L), L)
  {
    var alive := AliveTipStats(roots);
    var gone := GoneTipStats(alive, roots);
    TipStatsPrefix(roots, L);
    PrefixSumsRun(TipStats(roots), alive, gone, LocationSessions(alive, gone, L), L);
  }

  /** `a` and `b` agree, root by root, on everything the statistics read: the identity
      and the gone session. */
  predicate SameTipData(a: seq<Root>, b: seq<Root>) {
    |a| == |b| && forall i :: 0 <= i < |a| ==> a[i].identity == b[i].identity && a[i].goneSession == b[i].goneSession
  }

  /** Roots that agree on identity and gone session visit the same gone keys. */
  lemma {:induction false} GoneKeysAgree(din: map<TipKey, int>, a: seq<Root>, b: seq<Root>)
    requires SameTipData(a, b)
    ensures GoneKeys(din, a) == GoneKeys(din, b)
    decreases |a|
  {
    if |a| > 0 {
      GoneKeysAgree(din, a[..|a| - 1], b[..|b| - 1]);
    }
  }

  /** Roots that agree on identity have the same locations in the same order. */
  lemma {:induction false} LocationsAgree(a: seq<Root>, b: seq<Root>)
    requires SameTipData(a, b)
    ensures Locations(a) == Locations(b)
    decreases |a|
  {
    if |a| > 0 {
      LocationsAgree(a[..|a| - 1], b[..|b| - 1]);
    }
  }

  /** `tip_stats` reads only the identities and gone sessions of the roots: two root
      sequences that agree on those have the same statistics. */
  lemma TipStatsAgree(a: seq<Root>, b: seq<Root>)
    requires SameTipData(a, b)
    ensures TipStats(a) == TipStats(b)
  {
    assert TipKeys(a) == TipKeys(b);
    var alive := AliveTipStats(a);
    GoneKeysAgree(alive, a, b);
    LocationsAgree(a, b);
  }

  // Conservation: at each location, the last running total is the number of roots there
  // minus the number of them that are gone.

  /** The number of roots at location `L`. */
  function RootsAt(roots: seq<Root>, L: Value): nat
    decreases |roots|
  {
    if |roots| == 0 then 0
    else RootsAt(roots[..|roots| - 1], L) + (if roots[|roots| - 1].identity.location == L then 1 else 0)
  }

  /** The number of roots at location `L` whose gone session is truthy. */
  function GoneAt(roots: seq<Root>, L: Value): nat
    decreases |roots|
  {
    if |roots| == 0 then 0
    else
      var r := roots[|roots| - 1];
      GoneAt(roots[..|roots| - 1], L) + (if r.identity.location == L && GoneTruthy(r.goneSession) then 1 else 0)
  }

  /** The number of keys of `ks` at location `L`. */
  function CountAt(ks: seq<TipKey>, L: Value): nat
    decreases |ks|
  {
    if |ks| == 0 then 0
    else CountAt(ks[..|ks| - 1], L) + (if ks[|ks| - 1].1 == L then 1 else 0)
  }

  /** The number of keys of `ks` at location `L` whose session is in `S`. */
  function CountIn(ks: seq<TipKey>, L: Value, S: set<int>): nat
    decreases |ks|
  {
    if |ks| == 0 then 0
    else
      var k := ks[|ks| - 1];
      CountIn(ks[..|ks| - 1], L, S) + (if k.1 == L && k.0 in S then 1 else 0)
  }

  /** How often each (session, L) key of the sessions `ss` occurs in `ks`, summed. */
  function SumCounts(ks: seq<TipKey>, ss: seq<int>, L: Value): int
    decreases |ss|
  {
    if |ss| == 0 then 0
    else SumCounts(ks, ss[..|ss| - 1], L) + multiset(ks)[(ss[|ss| - 1], L)]
  }

  /** Adding one session to `S` adds the number of its keys. */
  lemma {:induction false} CountInAdd(ks: seq<TipKey>, L: Value, S: set<int>, s0: int)
    requires s0 !in S
    ensures CountIn(ks, L, S + {s0}) == CountIn(ks, L, S) + multiset(ks)[(s0, L)]
    decreases |ks|
  {
    if |ks| > 0 {
      var prefix := ks[..|ks| - 1];
      CountInAdd(prefix, L, S, s0);
      assert ks == prefix + [ks[|ks| - 1]];
      assert multiset(ks) == multiset(prefix) + multiset{ks[|ks| - 1]};
    }
  }

  /** Over distinct sessions, the summed counts are the keys whose session is among them. */
  lemma {:induction false} SumCountsDistinct(ks: seq<TipKey>, ss: seq<int>, L: Value)
    requires StrictlyIncreasing(ss)
    ensures SumCounts(ks, ss, L) == CountIn(ks, L, set s | s in ss)
    decreases |ss|
  {
    if |ss| == 0 {
      assert (set s | s in ss) == {};
      CountInEmpty(ks, L);
    } else {
      var prefix := ss[..|ss| - 1];
      var last := ss[|ss| - 1];
      assert StrictlyIncreasing(prefix);
      SumCountsDistinct(ks, prefix, L);
      assert last !in prefix;
      assert (set s | s in ss) == (set s | s in prefix) + {last};
      CountInAdd(ks, L, (set s | s in prefix), last);
    }
  }

  /** No session, no keys. */
  lemma {:induction false} CountInEmpty(ks: seq<TipKey>, L: Value)
    ensures CountIn(ks, L, {}) == 0
    decreases |ks|
  {
    if |ks| > 0 {
      CountInEmpty(ks[..|ks| - 1], L);
    }
  }

  /** When `S` holds the session of every key at `L`, counting within `S` counts them all. */
  lemma {:induction false} CountInCovers(ks: seq<TipKey>, L: Value, S: set<int>)
    requires forall k :: k in ks && k.1 == L ==> k.0 in S
    ensures CountIn(ks, L, S) == CountAt(ks, L)
    decreases |ks|
  {
    if |ks| > 0 {
      var prefix := ks[..|ks| - 1];
      assert forall k :: k in prefix ==> k in ks;
      CountInCovers(prefix, L, S);
    }
  }

  /** The running sum splits into the counted births minus the counted deaths. */
  lemma {:induction false} CumDeltaSplit(born: seq<TipKey>, died: seq<TipKey>, ss: seq<int>, L: Value)
    ensures CumDelta(Tally(born, false), Tally(died, true), ss, L) == SumCounts(born, ss, L) - SumCounts(died, ss, L)
    decreases |ss|
  {
    if |ss| > 0 {
      CumDeltaSplit(born, died, ss[..|ss| - 1], L);
    }
  }

  /** One tip key per root: the tip keys at `L` count the roots at `L`. */
  lemma {:induction false} TipKeysAt(roots: seq<Root>, L: Value)
    ensures CountAt(TipKeys(roots), L) == RootsAt(roots, L)
    decreases |roots|
  {
    if |roots| > 0 {
      var prefix := roots[..|roots| - 1];
      TipKeysAt(prefix, L);
      assert TipKeys(roots)[..|roots| - 1] == TipKeys(prefix);
    }
  }

  /** With every tip identity in `din`, the gone keys at `L` count the gone roots at `L`. */
  lemma {:induction false} GoneKeysAt(din: map<TipKey, int>, roots: seq<Root>, L: Value)
    requires forall i :: 0 <= i < |roots| ==> roots[i].TipIdentity() in din
    ensures CountAt(GoneKeys(din, roots), L) == GoneAt(roots, L)
    decreases |roots|
  {
    if |roots| > 0 {
      var n := |roots| - 1;
      var prefix := roots[..n];
      var r := roots[n];
      assert forall i :: 0 <= i < |prefix| ==> prefix[i] == roots[i];
      GoneKeysAt(din, prefix, L);
      var ks := GoneKeys(din, prefix);
      assert r.TipIdentity() in din;
      if GoneTruthy(r.goneSession) {
        var ks2 := ks + [r.GoneKey()];
        assert GoneKeys(din, roots) == ks2;
        assert ks2[..|ks2| - 1] == ks;
        assert CountAt(ks2, L) == CountAt(ks, L) + (if r.identity.location == L then 1 else 0);
      } else {
        assert GoneKeys(din, roots) == ks;
      }
    }
  }

  /** With prefix sums, the total under the last session is the sum over all sessions. */
  lemma PrefixSumsLast(m: map<TipKey, int>, alive: map<TipKey, int>, gone: map<TipKey, int>, ss: seq<int>, L: Value)
    requires PrefixSums(m, alive, gone, ss, L) && |ss| > 0
    ensures (ss[|ss| - 1], L) in m && m[(ss[|ss| - 1], L)] == CumDelta(alive, gone, ss, L)
  {
    assert ss[..|ss|] == ss;
  }

  /** Over all sessions of a location, the alive and gone counts add up to the number of
      roots born there minus the number of roots gone there. */
  lemma SessionCountsTotal(roots: seq<Root>, L: Value)
    requires L in Locations(roots)
    ensures var alive := AliveTipStats(roots);
            var gone := GoneTipStats(alive, roots);
            var ss := LocationSessions(alive, gone, L);
            && |ss| > 0
            && CumDelta(alive, gone, ss, L) == RootsAt(roots, L) as int - GoneAt(roots, L) as int
  {
    var alive := AliveTipStats(roots);
    var gone := GoneTipStats(alive, roots);
    var ss := LocationSessions(alive, gone, L);
    var born := TipKeys(roots);
    var died := GoneKeys(alive, roots);
    var i :| 0 <= i < |roots| && roots[i].identity.location == L;
    assert roots[i].TipIdentity() in alive;
    assert roots[i].identity.birthSession in ss;
    CumDeltaSplit(born, died, ss, L);
    SumCountsDistinct(born, ss, L);
    SumCountsDistinct(died, ss, L);
    assert forall k :: k in born ==> k in alive;
    CountInCovers(born, L, (set s | s in ss));
    assert forall k :: k in died ==> k in gone;
    CountInCovers(died, L, (set s | s in ss));
    TipKeysAt(roots, L);
    assert forall j :: 0 <= j < |roots| ==> roots[j].TipIdentity() in alive;
    GoneKeysAt(alive, roots, L);
  }

  /** Conservation at a location: the running total under its last session is the number of
      roots born there minus the number of roots gone there. */
  lemma Conservation(roots: seq<Root>, L: Value)
    requires L in Locations(roots)
    ensures var alive := AliveTipStats(roots);
            var ss := LocationSessions(alive, GoneTipStats(alive, roots), L);
            && |ss| > 0
            && TipStats(roots)[(ss[|ss| - 1], L)] == RootsAt(roots, L) as int - GoneAt(roots, L) as int
  {
    var alive := AliveTipStats(roots);
    var gone := GoneTipStats(alive, roots);
    var ss := LocationSessions(alive, gone, L);
    SessionCountsTotal(roots, L);
    TipStatsPrefix(roots, L);
    PrefixSumsLast(TipStats(roots), alive, gone, ss, L);
  }
}
