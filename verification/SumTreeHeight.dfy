/** How many leaves a tree of a given height has, when its nodes are filled as `Set` fills them. */
module SumTreeHeight {
  import opened KeyOrder
  import opened SumTreeLevel
  import opened SumTreeTower
  import opened SumTreeQuery

  ghost function Pow(b: nat, e: nat): nat {
    if e == 0 then 1 else b * Pow(b, e - 1)
  }

  lemma {:induction false} KidsCount(cs: seq<Child>)
    requires Sorted(cs)
    ensures |Kids(cs)| == |cs|
  {
    if cs != [] {
      var n := |cs| - 1;
      KidsCount(cs[..n]);
      assert Kids(cs) == Kids(cs[..n]) + {cs[n].index};
      forall i | 0 <= i < n ensures cs[..n][i].index != cs[n].index {}
    }
  }

  lemma DisjointCount(a: set<Key>, b: set<Key>, n: nat, x: nat)
    requires a !! b && |a| >= n * x && |b| >= n
    ensures |a + b| >= n * (x + 1)
  {
  }

  /** Nodes with at least `n` children each have at least `n` times as many children. */
  lemma {:induction false} CountOfKids(lvl: Level, items: map<Key, int>, ks: set<Key>, n: nat)
    requires LevelOK(lvl, items) && ks <= lvl.Keys
    requires forall k | k in ks :: |lvl[k]| >= n
    ensures |KidsOf(lvl, ks)| >= n * |ks|
    decreases |ks|
  {
    hide LevelOK, Kids, Covers, Sorted;
    if ks == {} {
      assert n * |ks| == 0;
    } else {
      var k :| k in ks;
      var rest := ks - {k};
      CountOfKids(lvl, items, rest, n);
      NodeMirrors(lvl, items, k);
      KidsApart(lvl, items, rest, k);
      KidsCount(lvl[k]);
      assert KidsOf(lvl, ks) == KidsOf(lvl, rest) + Kids(lvl[k]);
      assert |ks| == |rest| + 1;
      DisjointCount(KidsOf(lvl, rest), Kids(lvl[k]), n, |rest|);
    }
  }

  lemma LevelCount(lvl: Level, items: map<Key, int>, n: nat)
    requires LevelOK(lvl, items)
    requires forall k | k in lvl :: |lvl[k]| >= n
    ensures |items| >= n * |lvl|
  {
    hide LevelOK;
    CountOfKids(lvl, items, lvl.Keys, n);
    SumOfKids(lvl, items, lvl.Keys);
    SubsetCount(KidsOf(lvl, lvl.Keys), items.Keys);
  }

  lemma {:induction false} SubsetCount(a: set<Key>, b: set<Key>)
    requires a <= b
    ensures |a| <= |b|
    decreases |a|
  {
    if a != {} {
      var x :| x in a;
      SubsetCount(a - {x}, b - {x});
    }
  }

  lemma FilledLevel(nodes: Nodes, m: nat, l: nat, top: nat, items: map<Key, int>)
    requires 1 <= l <= top && top >= 2
    requires LevelOK(LevelAt(nodes, l), items) && [] in LevelAt(nodes, l) && Filled(nodes, m, top)
    ensures l == top ==> |items| >= 2
    ensures l < top ==> |items| >= (m - m / 2) * |LevelAt(nodes, l)|
  {
    hide LevelOK;
    var lvl := LevelAt(nodes, l);
    var n := if l == top then 2 else m - m / 2;
    forall k | k in lvl ensures |lvl[k]| >= n { assert FillOK(m, l, top, |lvl[k]|); }
    LevelCount(lvl, items, n);
  }

  /** From level `l` up to a root at level `top >= 2`, every level multiplies the items by half the branching factor. */
  lemma {:induction false} TowerCount(nodes: Nodes, m: nat, l: nat, top: nat, items: map<Key, int>)
    requires 1 <= l <= top && top >= 2
    requires Tower(nodes, l, top, items) && Filled(nodes, m, top)
    ensures |items| >= 2 * Pow(m - m / 2, top - l)
    decreases top - l
  {
    hide LevelOK, Tower, Filled, Accumulate;
    TowerBase(nodes, l, top, items);
    FilledLevel(nodes, m, l, top, items);
    if l < top {
      var h, lvl := m - m / 2, LevelAt(nodes, l);
      TowerCount(nodes, m, l + 1, top, Sums(lvl));
      assert Sums(lvl).Keys == lvl.Keys;
      MulUp(h, |lvl|, 2 * Pow(h, top - l - 1));
      Reorder(h, Pow(h, top - l - 1));
    }
  }

  lemma Reorder(h: nat, x: nat)
    ensures h * (2 * x) == 2 * (h * x)
  {
  }

  lemma MulUp(h: nat, a: nat, b: nat)
    requires a >= b
    ensures h * a >= h * b
  {
  }

  lemma MulBoth(a: nat, b: nat, c: nat, d: nat)
    requires a <= b && c <= d
    ensures a * c <= b * d
  {
    MulUp(a, d, c);
    MulUp(d, b, a);
    assert a * d == d * a && b * d == d * b;
  }

  lemma {:induction false} PowMono(a: nat, b: nat, e: nat)
    requires a <= b
    ensures Pow(a, e) <= Pow(b, e)
  {
    if e > 0 {
      PowMono(a, b, e - 1);
      MulBoth(a, b, Pow(a, e - 1), Pow(b, e - 1));
    }
  }

  /** The height is logarithmic: from three children to a node, a root at level `top` stands on at least `2^top` leaves. */
  lemma HeightBound(nodes: Nodes, m: nat, top: nat, leaves: map<Key, int>)
    requires top >= 2 && Tower(nodes, 1, top, leaves) && Filled(nodes, m, top)
    ensures |leaves| >= 2 * Pow(m - m / 2, top - 1)
    ensures m >= 3 ==> |leaves| >= Pow(2, top)
  {
    hide Tower, Filled;
    TowerCount(nodes, m, 1, top, leaves);
    if m >= 3 { PowMono(2, m - m / 2, top - 1); }
  }
}
