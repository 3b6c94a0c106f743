/** Finite sums over sequences and maps, with the update laws the invariants need. */
module Sums {

  function SumBy<T>(f: T -> int, ts: seq<T>): int {
    if ts == [] then 0 else f(ts[0]) + SumBy(f, ts[1..])
  }

  lemma {:induction false} SumByUpdate<T>(f: T -> int, ts: seq<T>, i: nat, v: T)
    requires i < |ts|
    ensures SumBy(f, ts[i := v]) == SumBy(f, ts) - f(ts[i]) + f(v)
  {
    if i == 0 {
      assert ts[i := v][1..] == ts[1..];
    } else {
      assert ts[i := v][1..] == ts[1..][i - 1 := v];
      SumByUpdate(f, ts[1..], i - 1, v);
    }
  }

  lemma {:induction false} SumByAppend<T>(f: T -> int, ts: seq<T>, us: seq<T>)
    ensures SumBy(f, ts + us) == SumBy(f, ts) + SumBy(f, us)
  {
    if ts == [] {
      assert ts + us == us;
    } else {
      assert (ts + us)[1..] == ts[1..] + us;
      SumByAppend(f, ts[1..], us);
    }
  }

  /** If f is pointwise at most m times g, so are the sums. */
  lemma {:induction false} SumByScaled<T>(f: T -> int, g: T -> int, m: int, ts: seq<T>)
    requires forall i :: 0 <= i < |ts| ==> f(ts[i]) <= m * g(ts[i])
    ensures SumBy(f, ts) <= m * SumBy(g, ts)
  {
    if ts != [] {
      forall i | 0 <= i < |ts[1..]| ensures f(ts[1..][i]) <= m * g(ts[1..][i]) {
        assert ts[1..][i] == ts[i + 1];
      }
      SumByScaled(f, g, m, ts[1..]);
      assert m * (g(ts[0]) + SumBy(g, ts[1..])) == m * g(ts[0]) + m * SumBy(g, ts[1..]);
    }
  }

  lemma {:induction false} SumByNonNegative<T>(f: T -> int, ts: seq<T>)
    requires forall i :: 0 <= i < |ts| ==> 0 <= f(ts[i])
    ensures 0 <= SumBy(f, ts)
    ensures forall i :: 0 <= i < |ts| ==> f(ts[i]) <= SumBy(f, ts)
  {
    if ts != [] {
      forall i | 0 <= i < |ts[1..]| ensures 0 <= f(ts[1..][i]) {
        assert ts[1..][i] == ts[i + 1];
      }
      SumByNonNegative(f, ts[1..]);
      forall i | 0 <= i < |ts| ensures f(ts[i]) <= SumBy(f, ts) {
        if i > 0 {
          assert ts[i] == ts[1..][i - 1];
        }
      }
    }
  }

  /** Sum of a map's values; the order of summation is irrelevant by MapSumRemove. */
  ghost function MapSum<K>(m: map<K, int>): int
    decreases |m|
  {
    if m == map[] then 0 else
      var k :| k in m;
      assert (m - {k}).Keys == m.Keys - {k};
      m[k] + MapSum(m - {k})
  }

  lemma {:induction false} MapSumRemove<K>(m: map<K, int>, k: K)
    requires k in m
    ensures MapSum(m) == m[k] + MapSum(m - {k})
    decreases |m|
  {
    var j :| j in m && MapSum(m) == m[j] + MapSum(m - {j});
    if j != k {
      assert |(m - {j}).Keys| == |m.Keys - {j}|;
      assert |(m - {k}).Keys| == |m.Keys - {k}|;
      MapSumRemove(m - {j}, k);
      MapSumRemove(m - {k}, j);
      assert m - {j} - {k} == m - {k} - {j};
    }
  }

  lemma MapSumInsert<K>(m: map<K, int>, k: K, v: int)
    ensures MapSum(m[k := v]) == MapSum(m) + v - (if k in m then m[k] else 0)
  {
    MapSumRemove(m[k := v], k);
    if k in m {
      MapSumRemove(m, k);
      assert m[k := v] - {k} == m - {k};
    } else {
      assert m[k := v] - {k} == m;
    }
  }

  lemma {:induction false} MapSumNonNegative<K>(m: map<K, int>)
    requires forall k :: k in m ==> 0 <= m[k]
    ensures 0 <= MapSum(m)
    decreases |m|
  {
    if m != map[] {
      var k :| k in m && MapSum(m) == m[k] + MapSum(m - {k});
      assert |(m - {k}).Keys| == |m.Keys - {k}|;
      MapSumNonNegative(m - {k});
    }
  }
}
