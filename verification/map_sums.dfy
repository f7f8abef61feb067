/** The size of a map, and sums over its values, which no iteration order changes. */
module MapSums {
  ghost function SumOf<K>(m: map<K, nat>, keys: set<K>): nat
    requires keys <= m.Keys
  {
    if keys == {} then 0 else var k :| k in keys; m[k] + SumOf(m, keys - {k})
  }

  lemma {:induction false} SumOfRemove<K>(m: map<K, nat>, keys: set<K>, k: K)
    requires keys <= m.Keys && k in keys
    ensures SumOf(m, keys) == m[k] + SumOf(m, keys - {k})
    decreases keys
  {
    var j :| j in keys && SumOf(m, keys) == m[j] + SumOf(m, keys - {j});
    if j != k {
      SumOfRemove(m, keys - {j}, k);
      SumOfRemove(m, keys - {k}, j);
      assert keys - {j} - {k} == keys - {k} - {j};
    }
  }

  lemma {:induction false} SumOfAgree<K>(m: map<K, nat>, n: map<K, nat>, keys: set<K>)
    requires keys <= m.Keys && keys <= n.Keys && forall k :: k in keys ==> m[k] == n[k]
    ensures SumOf(m, keys) == SumOf(n, keys)
    decreases keys
  {
    if keys != {} {
      var k :| k in keys;
      SumOfRemove(m, keys, k);
      SumOfRemove(n, keys, k);
      SumOfAgree(m, n, keys - {k});
    }
  }

  /** One value raised raises the sum of any keys it is among by as much. */
  lemma SumOfAdd<K>(m: map<K, nat>, k: K, more: nat, before: set<K>, after: set<K>)
    requires before <= m.Keys && after == before + {k} && (k in m ==> k in before)
    ensures SumOf(m[k := (if k in m then m[k] else 0) + more], after) == SumOf(m, before) + more
  {
    var n := m[k := (if k in m then m[k] else 0) + more];
    SumOfRemove(n, after, k);
    SumOfAgree(n, m, after - {k});
    if k in m {
      SumOfRemove(m, before, k);
      assert after - {k} == before - {k};
    } else {
      assert after - {k} == before;
    }
  }

  lemma {:induction false} MapGrows<K, V>(m: map<K, V>, k: K, v: V)
    ensures |m[k := v]| == |m| + if k in m then 0 else 1
    ensures k in m ==> |m - {k}| == |m| - 1
  {
    assert m[k := v].Keys == m.Keys + {k};
    assert |m[k := v].Keys| == |m[k := v]| && |m.Keys| == |m|;
    if k in m {
      assert m.Keys + {k} == m.Keys;
      assert (m - {k}).Keys == m.Keys - {k};
      assert |(m - {k}).Keys| == |m - {k}|;
    }
  }
}
