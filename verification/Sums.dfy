/** Sums over the values of a finite map. */
module Sums {
  ghost function Sum<K>(m: map<K, nat>): nat {
    if m == map[] then 0 else
    var k :| k in m;
    m[k] + Sum(m - {k})
  }

  lemma {:induction false} SumWithout<K>(m: map<K, nat>, k: K)
    requires k in m
    ensures Sum(m) == m[k] + Sum(m - {k})
    decreases |m|
  {
    var j :| j in m && Sum(m) == m[j] + Sum(m - {j});
    if j != k {
      assert |m - {j}| < |m| && |m - {k}| < |m| by {
        assert (m - {j}).Keys == m.Keys - {j};
        assert (m - {k}).Keys == m.Keys - {k};
      }
      SumWithout(m - {j}, k);
      SumWithout(m - {k}, j);
      assert m - {j} - {k} == m - {k} - {j};
    }
  }

  lemma SumWith<K>(m: map<K, nat>, k: K, v: nat)
    ensures Sum(m[k := v]) == v + Sum(m - {k})
    ensures k !in m ==> m - {k} == m
  {
    SumWithout(m[k := v], k);
    assert m[k := v] - {k} == m - {k};
  }
}
