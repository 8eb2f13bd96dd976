/** One level of the sum tree when one of its nodes disappears. */
module SumTreeRemove {
  import opened KeyOrder
  import opened SumTreeLevel
  import opened SumTreeQuery

  /** `l` is the left neighbour of `k` among `keys`. */
  ghost predicate LeftOf(keys: set<Key>, l: Key, k: Key) {
    l in keys && Rank(l) < Rank(k) && forall x | x in keys && Rank(x) < Rank(k) :: Rank(x) <= Rank(l)
  }

  /** `r` is the right neighbour of `k` among `keys`. */
  ghost predicate RightOf(keys: set<Key>, r: Key, k: Key) {
    r in keys && Rank(k) < Rank(r) && forall x | x in keys && Rank(k) < Rank(x) :: Rank(r) <= Rank(x)
  }

  /** Dropping a node together with its only child. */
  lemma DropOK(lvl: Level, items: map<Key, int>, k: Key, c: Key)
    requires LevelOK(lvl, items) && k in lvl && k != []
    requires |lvl[k]| == 1 && lvl[k][0].index == c
    ensures LevelOK(lvl - {k}, items - {c})
    ensures Sums(lvl - {k}) == Sums(lvl) - {k}
  {
    var lvl', items' := lvl - {k}, items - {c};
    assert lvl'.Keys == lvl.Keys - {k};
    forall k' | k' in lvl' ensures NodeOK(lvl'.Keys, items', k', lvl'[k']) {
      DropNodeOK(lvl, items, k, c, k');
    }
    forall k', x | x in items' && Covers(lvl'.Keys, k', x) ensures HasChild(lvl'[k'], x) {
      DropHasChild(lvl, items, k, c, k', x);
    }
  }

  lemma DropNodeOK(lvl: Level, items: map<Key, int>, k: Key, c: Key, k': Key)
    requires LevelOK(lvl, items) && k in lvl
    requires |lvl[k]| == 1 && lvl[k][0].index == c
    requires k' in lvl && k' != k
    ensures NodeOK(lvl.Keys - {k}, items - {c}, k', lvl[k'])
  {
    assert NodeOK(lvl.Keys, items, k', lvl[k']) && NodeOK(lvl.Keys, items, k, lvl[k]);
    assert ChildOK(lvl.Keys, items, k, lvl[k][0]);
    forall i | 0 <= i < |lvl[k']| ensures ChildOK(lvl.Keys - {k}, items - {c}, k', lvl[k'][i]) {
      assert ChildOK(lvl.Keys, items, k', lvl[k'][i]);
      if lvl[k'][i].index == c {
        CoverUnique(lvl.Keys, k, k', c);
      }
    }
  }

  lemma DropHasChild(lvl: Level, items: map<Key, int>, k: Key, c: Key, k': Key, x: Key)
    requires LevelOK(lvl, items) && k in lvl
    requires |lvl[k]| == 1 && lvl[k][0].index == c
    requires x in items && x != c && Covers(lvl.Keys - {k}, k', x)
    ensures HasChild(lvl[k'], x)
  {
    var k'' := CoverExists(lvl.Keys, x);
    assert HasChild(lvl[k''], x);
    if k'' != k {
      assert Covers(lvl.Keys - {k}, k'', x);
      CoverUnique(lvl.Keys - {k}, k', k'', x);
    }
  }

  // ---- merging two neighbours ----

  ghost function Merge(lvl: Level, l: Key, r: Key): Level
    requires l in lvl && r in lvl
  {
    lvl[l := lvl[l] + lvl[r]] - {r}
  }

  /** The left neighbour takes over exactly what both covered. */
  lemma MergeCovers(keys: set<Key>, l: Key, r: Key, k: Key, x: Key)
    requires LeftOf(keys, l, r) && r in keys
    ensures Covers(keys - {r}, k, x) <==>
            k != r && (Covers(keys, k, x) || (k == l && Covers(keys, r, x)))
  {
    if k == l && Covers(keys, r, x) {
      assert Covers(keys - {r}, l, x);
    }
  }

  lemma MergeNodeOK(lvl: Level, items: map<Key, int>, l: Key, r: Key)
    requires LevelOK(lvl, items) && LeftOf(lvl.Keys, l, r) && r in lvl
    ensures NodeOK(lvl.Keys - {r}, items, l, lvl[l] + lvl[r])
  {
    assert NodeOK(lvl.Keys, items, l, lvl[l]) && NodeOK(lvl.Keys, items, r, lvl[r]);
    var cs := lvl[l] + lvl[r];
    forall i | 0 <= i < |cs|
      ensures ChildOK(lvl.Keys - {r}, items, l, cs[i])
      ensures i < |lvl[l]| ==> cs[i] == lvl[l][i] && Rank(cs[i].index) < Rank(r)
      ensures i >= |lvl[l]| ==> cs[i] == lvl[r][i - |lvl[l]|] && Rank(r) <= Rank(cs[i].index)
    {
      MergeCovers(lvl.Keys, l, r, l, cs[i].index);
      if i < |lvl[l]| {
        assert ChildOK(lvl.Keys, items, l, lvl[l][i]);
      } else {
        assert ChildOK(lvl.Keys, items, r, lvl[r][i - |lvl[l]|]);
      }
    }
  }

  lemma MergeOK(lvl: Level, items: map<Key, int>, l: Key, r: Key)
    requires LevelOK(lvl, items) && LeftOf(lvl.Keys, l, r) && r in lvl
    ensures LevelOK(Merge(lvl, l, r), items)
  {
    var lvl' := Merge(lvl, l, r);
    assert lvl'.Keys == lvl.Keys - {r};
    forall k | k in lvl' ensures NodeOK(lvl'.Keys, items, k, lvl'[k]) {
      if k == l {
        MergeNodeOK(lvl, items, l, r);
      } else {
        assert NodeOK(lvl.Keys, items, k, lvl[k]);
        forall i | 0 <= i < |lvl[k]| ensures ChildOK(lvl'.Keys, items, k, lvl[k][i]) {
          assert ChildOK(lvl.Keys, items, k, lvl[k][i]);
          MergeCovers(lvl.Keys, l, r, k, lvl[k][i].index);
        }
      }
    }
    forall k, x | x in items && Covers(lvl'.Keys, k, x) ensures HasChild(lvl'[k], x) {
      MergeCovers(lvl.Keys, l, r, k, x);
      MergeHasChild(lvl, items, l, r, k, x);
    }
  }

  lemma HasChildConcat(a: seq<Child>, b: seq<Child>, x: Key)
    ensures HasChild(a + b, x) <==> HasChild(a, x) || HasChild(b, x)
  {
    forall i | 0 <= i < |a| ensures HasChild(a + b, a[i].index) { assert (a + b)[i] == a[i]; }
    forall i | 0 <= i < |b| ensures HasChild(a + b, b[i].index) { assert (a + b)[|a| + i] == b[i]; }
  }

  lemma MergeHasChild(lvl: Level, items: map<Key, int>, l: Key, r: Key, k: Key, x: Key)
    requires LevelOK(lvl, items) && l in lvl && r in lvl && l != r && k != r
    requires x in items && (Covers(lvl.Keys, k, x) || (k == l && Covers(lvl.Keys, r, x)))
    ensures HasChild(Merge(lvl, l, r)[k], x)
  {
    var source := if Covers(lvl.Keys, k, x) then k else r;
    assert HasChild(lvl[source], x);
    HasChildConcat(lvl[l], lvl[r], x);
  }

  /** The items that a level stands on can be read off its nodes. */
  lemma LevelDetermines(lvl: Level, a: map<Key, int>, b: map<Key, int>)
    requires LevelOK(lvl, a) && LevelOK(lvl, b)
    ensures a == b
  {
    hide LevelOK;
    forall c | c in a ensures c in b && b[c] == a[c] { LevelDeterminesAt(lvl, a, b, c); }
    forall c | c in b ensures c in a { LevelDeterminesAt(lvl, b, a, c); }
  }

  lemma LevelDeterminesAt(lvl: Level, a: map<Key, int>, b: map<Key, int>, c: Key)
    requires LevelOK(lvl, a) && LevelOK(lvl, b) && c in a
    ensures c in b && b[c] == a[c]
  {
    var k := CoverExists(lvl.Keys, c);
    assert NodeOK(lvl.Keys, a, k, lvl[k]) && NodeOK(lvl.Keys, b, k, lvl[k]);
    assert HasChild(lvl[k], c);
    var i :| 0 <= i < |lvl[k]| && lvl[k][i].index == c;
    assert ChildOK(lvl.Keys, a, k, lvl[k][i]) && ChildOK(lvl.Keys, b, k, lvl[k][i]);
  }

  ghost function CoverOf(keys: set<Key>, c: Key): (k: Key)
    ensures [] in keys ==> Covers(keys, k, c)
  {
    if [] in keys then
      assert exists k :: Covers(keys, k, c) by { var k := CoverExists(keys, c); }
      var k :| Covers(keys, k, c);
      k
    else []
  }

  // ---- neighbours ----

  /** `a` and `b` are the neighbours of `k` on both sides. */
  ghost predicate Neighbours(keys: set<Key>, a: Key, k: Key, b: Key) {
    LeftOf(keys, a, k) && RightOf(keys, b, k)
  }

  lemma NeighboursUnique(keys: set<Key>, k: Key, a: Key, b: Key, a': Key, b': Key)
    requires Neighbours(keys, a, k, b) && Neighbours(keys, a', k, b')
    ensures a == a' && b == b'
  {
    assert Rank(a) == Rank(a') && Rank(b) == Rank(b');
  }

  /** Without `k`, its two neighbours are neighbours of each other. */
  lemma NeighboursMeet(keys: set<Key>, a: Key, k: Key, b: Key)
    requires Neighbours(keys, a, k, b)
    ensures LeftOf(keys - {k}, a, b) && b in keys - {k}
  {
    forall x | x in keys - {k} && Rank(x) < Rank(b) ensures Rank(x) <= Rank(a) {
      assert Rank(x) != Rank(k);
    }
  }

  lemma TwoChildren(lvl: Level, items: map<Key, int>, p: Key, l: Key, r: Key)
    requires LevelOK(lvl, items) && l in items && r in items && l != r
    requires Covers(lvl.Keys, p, l) && Covers(lvl.Keys, p, r)
    ensures p in lvl && |lvl[p]| > 1
  {
    assert HasChild(lvl[p], l) && HasChild(lvl[p], r);
  }

  lemma SumsMerge(lvl: Level, l: Key, r: Key)
    requires l in lvl && r in lvl && l != r
    ensures Sums(Merge(lvl, l, r)) == (Sums(lvl) - {r})[l := Accumulate(lvl[l]) + Accumulate(lvl[r])]
  {
    hide Accumulate;
    AccumulateConcat(lvl[l], lvl[r]);
  }

  lemma SumsDrop(lvl: Level, k: Key)
    ensures Sums(lvl - {k}) == Sums(lvl) - {k}
  {
    hide Accumulate;
  }

  lemma OneItem(lvl: Level, items: map<Key, int>, c: Key)
    requires LevelOK(lvl, items) && lvl.Keys == {[]}
    requires |lvl[[]]| == 1 && lvl[[]][0].index == c
    ensures items.Keys == {c}
  {
    hide LevelOK;
    NodeMirrors(lvl, items, []);
    RootThere(lvl, items);
    forall x | x in items ensures x == c {
      RootCovers(lvl.Keys, x);
      assert x in Kids(lvl[[]]);
    }
    assert c in Kids(lvl[[]]);
  }
}
