/** Sums of the values of a finite map. */
module Sums {
  /** The sum of all values. */
  ghost function Sum<K>(m: map<K, int>): int {
    SumOver(m, m.Keys)
  }

  /** The sum of the values of the keys in `s`, taken in an arbitrary order. */
  ghost function SumOver<K>(m: map<K, int>, s: set<K>): int
    requires s <= m.Keys
  {
    if s == {} then 0
    else
      var k :| k in s;
      m[k] + SumOver(m, s - {k})
  }

  /** The order does not matter: any key may be taken first. */
  lemma {:induction false} SumTake<K>(m: map<K, int>, s: set<K>, k: K)
    requires s <= m.Keys && k in s
    ensures SumOver(m, s) == m[k] + SumOver(m, s - {k})
    decreases |s|
  {
    var j :| j in s && SumOver(m, s) == m[j] + SumOver(m, s - {j});
    if j != k {
      SumTake(m, s - {j}, k);
      SumTake(m, s - {k}, j);
      assert s - {j} - {k} == s - {k} - {j};
    }
  }

  lemma {:induction false} SumSame<K>(m: map<K, int>, n: map<K, int>, s: set<K>)
    requires s <= m.Keys && s <= n.Keys && forall k <- s :: m[k] == n[k]
    ensures SumOver(m, s) == SumOver(n, s)
    decreases |s|
  {
    if s != {} {
      var k :| k in s;
      SumTake(m, s, k);
      SumTake(n, s, k);
      SumSame(m, n, s - {k});
    }
  }

  lemma {:induction false} SumUpdate<K>(m: map<K, int>, k: K, v: int)
    ensures Sum(m[k := v]) == Sum(m) - (if k in m then m[k] else 0) + v
  {
    var n, rest := m[k := v], m.Keys - {k};
    SumTake(n, n.Keys, k);
    assert n.Keys - {k} == rest;
    SumSame(m, n, rest);
    if k in m { SumTake(m, m.Keys, k); } else { assert rest == m.Keys; }
  }

  lemma {:induction false} SumWithout<K>(m: map<K, int>, k: K)
    requires k in m
    ensures Sum(m) == m[k] + Sum(m - {k})
  {
    SumTake(m, m.Keys, k);
    assert (m - {k}).Keys == m.Keys - {k};
    SumSame(m, m - {k}, m.Keys - {k});
  }

  /** A map that is nowhere smaller has no smaller sum. */
  lemma {:induction false} SumMono<K>(m: map<K, int>, n: map<K, int>, s: set<K>)
    requires s <= m.Keys && s <= n.Keys && forall k <- s :: m[k] <= n[k]
    ensures SumOver(m, s) <= SumOver(n, s)
    decreases |s|
  {
    if s != {} {
      var k :| k in s;
      SumTake(m, s, k);
      SumTake(n, s, k);
      SumMono(m, n, s - {k});
    }
  }

  lemma {:induction false} SumNonNegative<K>(m: map<K, int>, s: set<K>)
    requires s <= m.Keys && forall k <- s :: m[k] >= 0
    ensures SumOver(m, s) >= 0
    decreases |s|
  {
    if s != {} {
      var k :| k in s;
      SumTake(m, s, k);
      SumNonNegative(m, s - {k});
    }
  }

  lemma {:induction false} SumDisjoint<K>(m: map<K, int>, s: set<K>, t: set<K>)
    requires s <= m.Keys && t <= m.Keys && s !! t
    ensures SumOver(m, s + t) == SumOver(m, s) + SumOver(m, t)
    decreases |s|
  {
    if s == {} {
      assert s + t == t;
    } else {
      var k :| k in s;
      SumTake(m, s, k);
      SumTake(m, s + t, k);
      assert s + t - {k} == s - {k} + t;
      SumDisjoint(m, s - {k}, t);
    }
  }

  lemma {:induction false} SumSubset<K>(m: map<K, int>, s: set<K>, t: set<K>)
    requires s <= t <= m.Keys && forall k <- t :: m[k] >= 0
    ensures SumOver(m, s) <= SumOver(m, t)
  {
    SumDisjoint(m, s, t - s);
    assert s + (t - s) == t;
    SumNonNegative(m, t - s);
  }

  lemma {:induction false} SumUnion<K>(m: map<K, int>, s: set<K>, t: set<K>)
    requires s <= m.Keys && t <= m.Keys
    ensures SumOver(m, s + t) + SumOver(m, s * t) == SumOver(m, s) + SumOver(m, t)
  {
    SumDisjoint(m, s, t - s);
    SumDisjoint(m, s * t, t - s);
    assert s + (t - s) == s + t && s * t + (t - s) == t;
  }

  lemma {:induction false} SumZero<K>(m: map<K, int>, s: set<K>)
    requires s <= m.Keys && forall k <- s :: m[k] == 0
    ensures SumOver(m, s) == 0
    decreases |s|
  {
    if s != {} {
      var k :| k in s;
      SumTake(m, s, k);
      SumZero(m, s - {k});
    }
  }
}
