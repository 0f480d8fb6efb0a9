/** Counting occurrences of keys into a map, the pattern both tip-count loops of the
    analyzer follow: a key seen for the first time is stored with count one, and each later
    visit adds one to it (or, for deaths, starts at minus one and subtracts one). Also the
    sum of a map's values. */
module Counting {

  /** The value under `k`, or 0 when `k` is absent. */
  function Get0<K>(m: map<K, int>, k: K): int {
    if k in m then m[k] else 0
  }

  /** `n`, or `-n` when `negate` holds. */
  function Signed(negate: bool, n: int): int {
    if negate then -n else n
  }

  /** The map the counting loop builds from the keys `ks`, visited in order, adding 1 (or
      -1 when `negate` holds) for each visit: its keys are exactly the visited keys and
      each value is the number of visits, negated when `negate` holds. */
  function Tally<K(==,!new)>(ks: seq<K>, negate: bool): (m: map<K, int>)
    ensures forall k :: k in m <==> k in ks
    ensures forall k :: Get0(m, k) == Signed(negate, multiset(ks)[k])
    decreases |ks|
  {
    if |ks| == 0 then map[]
    else
      var prefix := ks[..|ks| - 1];
      var k := ks[|ks| - 1];
      var m := Tally(prefix, negate);
      var step := Signed(negate, 1);
      assert ks == prefix + [k];
      assert forall j :: multiset(ks)[j] == multiset(prefix)[j] + (if j == k then 1 else 0);
      if k !in m then m[k := step] else m[k := m[k] + step]
  }

  /** The sum of the values of `m` under the keys `ks`. */
  ghost function SumOver<K>(m: map<K, int>, ks: set<K>): int
    requires ks <= m.Keys
    decreases ks
  {
    if ks == {} then 0
    else
      var k :| k in ks;
      m[k] + SumOver(m, ks - {k})
  }

  /** The sum of all values of `m`. */
  ghost function MapSum<K>(m: map<K, int>): int {
    SumOver(m, m.Keys)
  }

  /** The sum does not depend on which key is taken out first. */
  lemma {:induction false} SumOverPick<K>(m: map<K, int>, ks: set<K>, k: K)
    requires ks <= m.Keys && k in ks
    ensures SumOver(m, ks) == m[k] + SumOver(m, ks - {k})
    decreases ks
  {
    var j :| j in ks && SumOver(m, ks) == m[j] + SumOver(m, ks - {j});
    if j != k {
      SumOverPick(m, ks - {j}, k);
      SumOverPick(m, ks - {k}, j);
      assert ks - {j} - {k} == ks - {k} - {j};
    }
  }

  /** Two maps that agree on `ks` have the same sum over `ks`. */
  lemma {:induction false} SumOverAgree<K>(m1: map<K, int>, m2: map<K, int>, ks: set<K>)
    requires ks <= m1.Keys && ks <= m2.Keys
    requires forall k :: k in ks ==> m1[k] == m2[k]
    ensures SumOver(m1, ks) == SumOver(m2, ks)
    decreases ks
  {
    if ks != {} {
      var k :| k in ks;
      SumOverPick(m1, ks, k);
      SumOverPick(m2, ks, k);
      SumOverAgree(m1, m2, ks - {k});
    }
  }

  /** Storing `v` under `k` changes the sum by `v` minus what was stored there. */
  lemma MapSumUpdate<K>(m: map<K, int>, k: K, v: int)
    ensures MapSum(m[k := v]) == MapSum(m) - Get0(m, k) + v
  {
    var m' := m[k := v];
    SumOverPick(m', m'.Keys, k);
    SumOverAgree(m', m, m'.Keys - {k});
    if k in m {
      SumOverPick(m, m.Keys, k);
      assert m'.Keys - {k} == m.Keys - {k};
    } else {
      assert m'.Keys - {k} == m.Keys;
    }
  }

  /** Conservation of the count: the values of a tally sum to the number of keys visited,
      negated when `negate` holds. */
  lemma {:induction false} TallySum<K(!new)>(ks: seq<K>, negate: bool)
    ensures MapSum(Tally(ks, negate)) == Signed(negate, |ks|)
    decreases |ks|
  {
    if |ks| == 0 {
      assert Tally(ks, negate) == map[];
    } else {
      var prefix := ks[..|ks| - 1];
      var k := ks[|ks| - 1];
      var m := Tally(prefix, negate);
      TallySum(prefix, negate);
      MapSumUpdate(m, k, Get0(m, k) + Signed(negate, 1));
      assert Tally(ks, negate) == m[k := Get0(m, k) + Signed(negate, 1)];
    }
  }
}
