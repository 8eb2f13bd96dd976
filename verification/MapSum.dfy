/** Sums of the values of a finite map over a set of its keys. */
module MapSum {
  ghost function SumOver<K>(s: set<K>, m: map<K, int>): int
    requires s <= m.Keys
    decreases |s|
  {
    if s == {} then 0 else
      var k :| k in s;
      m[k] + SumOver(s - {k}, m)
  }

  ghost function Total<K>(m: map<K, int>): int {
    SumOver(m.Keys, m)
  }

  lemma {:induction false} SumRemove<K>(s: set<K>, m: map<K, int>, k: K)
    requires s <= m.Keys
    requires k in s
    ensures SumOver(s, m) == m[k] + SumOver(s - {k}, m)
    decreases |s|
  {
    var k' :| k' in s && SumOver(s, m) == m[k'] + SumOver(s - {k'}, m);
    if k' != k {
      SumRemove(s - {k'}, m, k);
      SumRemove(s - {k}, m, k');
      assert s - {k'} - {k} == s - {k} - {k'};
    }
  }

  lemma SumAdd<K>(s: set<K>, m: map<K, int>, k: K)
    requires s <= m.Keys
    requires k in m && k !in s
    ensures SumOver(s + {k}, m) == m[k] + SumOver(s, m)
  {
    SumRemove(s + {k}, m, k);
    assert s + {k} - {k} == s;
  }

  lemma {:induction false} SumUnion<K>(a: set<K>, b: set<K>, m: map<K, int>)
    requires a <= m.Keys && b <= m.Keys
    requires a !! b
    ensures SumOver(a + b, m) == SumOver(a, m) + SumOver(b, m)
    decreases |b|
  {
    if b == {} {
      assert a + b == a;
    } else {
      var k :| k in b;
      SumUnion(a, b - {k}, m);
      SumRemove(b, m, k);
      SumAdd(a + (b - {k}), m, k);
      assert a + b == a + (b - {k}) + {k};
    }
  }

  /** The sum only looks at the values of the keys it ranges over. */
  lemma {:induction false} SumAgree<K>(s: set<K>, m: map<K, int>, m': map<K, int>)
    requires s <= m.Keys && s <= m'.Keys
    requires forall k | k in s :: m[k] == m'[k]
    ensures SumOver(s, m) == SumOver(s, m')
    decreases |s|
  {
    if s != {} {
      var k :| k in s;
      SumRemove(s, m, k);
      SumRemove(s, m', k);
      SumAgree(s - {k}, m, m');
    }
  }

  lemma TotalUpdate<K>(m: map<K, int>, k: K, v: int)
    ensures Total(m[k := v]) == Total(m) + v - (if k in m then m[k] else 0)
  {
    var rest := m.Keys - {k};
    assert m[k := v].Keys == rest + {k};
    SumAdd(rest, m[k := v], k);
    SumAgree(rest, m, m[k := v]);
    if k in m {
      SumRemove(m.Keys, m, k);
    } else {
      assert rest == m.Keys;
    }
  }

  lemma TotalRemove<K>(m: map<K, int>, k: K)
    requires k in m
    ensures Total(m - {k}) == Total(m) - m[k]
  {
    SumRemove(m.Keys, m, k);
    SumAgree(m.Keys - {k}, m, m - {k});
    assert (m - {k}).Keys == m.Keys - {k};
  }

  /** Sums are linear in their values. */
  lemma {:induction false} SumLinear<K>(s: set<K>, a: map<K, int>, b: map<K, int>, f: int, c: map<K, int>)
    requires s <= a.Keys && s <= b.Keys && s <= c.Keys
    requires forall k | k in s :: c[k] == a[k] + f * b[k]
    ensures SumOver(s, c) == SumOver(s, a) + f * SumOver(s, b)
    decreases |s|
  {
    if s == {} {
      assert f * SumOver(s, b) == 0;
    } else {
      hide SumOver;
      var k :| k in s;
      SumLinear(s - {k}, a, b, f, c);
      SumRemove(s, a, k);
      SumRemove(s, b, k);
      SumRemove(s, c, k);
      assert f * (b[k] + SumOver(s - {k}, b)) == f * b[k] + f * SumOver(s - {k}, b);
    }
  }
}
