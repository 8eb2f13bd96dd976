/**
 The stack of levels when a node at one of them loses its only child: the node goes, and so may its
 ancestors, and then neighbours may merge on the way down.
 */
module SumTreePull {
  import opened Options
  import opened KeyOrder
  import opened SumTreeLevel
  import opened SumTreeTower
  import opened SumTreeQuery
  import opened SumTreeRemove

  ghost function Size(lvl: Level, k: Key): nat {
    if k in lvl then |lvl[k]| else 0
  }

  // ---- what a removal does, read off the store before it ----

  /** Once `k` is gone from level `l`, the nodes `a` and `b` beside it have the same parent. */
  ghost predicate Joined(nodes: Nodes, m: nat, top: nat, l: nat, a: Key, k: Key, b: Key)
    requires l < top
    decreases top - l, 0
  {
    var up := LevelAt(nodes, l + 1);
    var p := CoverOf(up.Keys, k);
    if Size(up, p) > 1 then Covers(up.Keys, p, a) && Covers(up.Keys, p, b) else Merges(nodes, m, top, l + 1, p)
  }

  /** The neighbours of `k` at level `l` merge when `k` goes. */
  ghost predicate Merges(nodes: Nodes, m: nat, top: nat, l: nat, k: Key)
    decreases top - l, 1
  {
    var lvl := LevelAt(nodes, l);
    l < top && exists a, b :: Neighbours(lvl.Keys, a, k, b) && |lvl[a]| + |lvl[b]| < m && Joined(nodes, m, top, l, a, k, b)
  }

  /** The right neighbour has a sum that the merge would drop. */
  ghost predicate Loses(nodes: Nodes, l: nat, k: Key) {
    var lvl := LevelAt(nodes, l);
    exists b :: RightOf(lvl.Keys, b, k) && Accumulate(lvl[b]) != 0
  }

  /**
   The tree stays well formed when `k` goes from level `l`. A merge reports the left node's old sum, which is right
   only if nothing was added to it. Without a merge the parent must not lose its first child, and if it goes as well, the
   same is asked of it.
   */
  ghost predicate Survives(nodes: Nodes, m: nat, top: nat, l: nat, k: Key)
    decreases top - l
  {
    || l >= top
    || if Merges(nodes, m, top, l, k) then !Loses(nodes, l, k)
       else
         var up := LevelAt(nodes, l + 1);
         var p := CoverOf(up.Keys, k);
         if Size(up, p) > 1 then p != k else Survives(nodes, m, top, l + 1, p)
  }

  /** All ancestors of `k` go with it. */
  ghost predicate Gone(nodes: Nodes, top: nat, l: nat, k: Key)
    decreases top - l
  {
    || l >= top
    || var up := LevelAt(nodes, l + 1);
       var p := CoverOf(up.Keys, k);
       Size(up, p) <= 1 && Gone(nodes, top, l + 1, p)
  }

  lemma MergesAt(nodes: Nodes, m: nat, top: nat, l: nat, a: Key, k: Key, b: Key)
    requires Neighbours(LevelAt(nodes, l).Keys, a, k, b)
    ensures Merges(nodes, m, top, l, k) <==>
            l < top && |LevelAt(nodes, l)[a]| + |LevelAt(nodes, l)[b]| < m && Joined(nodes, m, top, l, a, k, b)
  {
    hide Joined, Neighbours;
    forall a', b' | Neighbours(LevelAt(nodes, l).Keys, a', k, b') ensures a' == a && b' == b {
      NeighboursUnique(LevelAt(nodes, l).Keys, k, a, b, a', b');
    }
  }

  lemma LosesAt(nodes: Nodes, l: nat, a: Key, k: Key, b: Key)
    requires Neighbours(LevelAt(nodes, l).Keys, a, k, b)
    ensures Loses(nodes, l, k) <==> Accumulate(LevelAt(nodes, l)[b]) != 0
  {
    hide Accumulate;
    var keys := LevelAt(nodes, l).Keys;
    forall b' | RightOf(keys, b', k) ensures b' == b {
      NeighboursUnique(keys, k, a, b, a, b');
    }
  }

  /** Only the levels from `l` up decide. */
  lemma {:induction false} SameFate(x: Nodes, y: Nodes, m: nat, top: nat, l: nat, k: Key)
    requires SameFrom(x, y, l)
    ensures Merges(x, m, top, l, k) == Merges(y, m, top, l, k)
    ensures Survives(x, m, top, l, k) == Survives(y, m, top, l, k)
    ensures Gone(x, top, l, k) == Gone(y, top, l, k)
    decreases top - l
  {
    hide Neighbours, Covers, Accumulate;
    if l < top {
      SameFate(x, y, m, top, l + 1, CoverOf(LevelAt(x, l + 1).Keys, k));
      assert LevelAt(x, l) == LevelAt(y, l) && LevelAt(x, l + 1) == LevelAt(y, l + 1);
      forall a, b | Neighbours(LevelAt(x, l).Keys, a, k, b)
        ensures Joined(x, m, top, l, a, k, b) == Joined(y, m, top, l, a, k, b)
      {
        hide Merges;
      }
    }
  }

  // ---- stores that hold no tree ----

  /** No root level makes sense of the levels from `h` up. */
  ghost predicate Broken(nodes: Nodes, h: nat) {
    !Headed(nodes, if h < 2 then 2 else h) || forall t: nat, items: map<Key, int> :: !Tower(nodes, h, t, items)
  }

  lemma TowerUp(nodes: Nodes, h: nat, t: nat, items: map<Key, int>) returns (t': nat, items': map<Key, int>)
    requires Tower(nodes, h, t, items)
    ensures Tower(nodes, h + 1, t', items')
  {
    hide LevelOK;
    if h <= t {
      t', items' := t, Sums(LevelAt(nodes, h));
    } else {
      t', items' := 0, map[[] := 0];
    }
  }

  lemma BrokenBelow(nodes: Nodes, h: nat)
    requires Broken(nodes, h + 1)
    ensures Broken(nodes, h)
  {
    hide Tower;
    if Headed(nodes, if h < 2 then 2 else h) {
      assert Headed(nodes, if h + 1 < 2 then 2 else h + 1);
      forall t: nat, items: map<Key, int> ensures !Tower(nodes, h, t, items) {
        if Tower(nodes, h, t, items) {
          var t', items' := TowerUp(nodes, h, t, items);
          assert false;
        }
      }
    }
  }

  /** A level that expects other sums than the level below has. */
  lemma WrongSums(nodes: Nodes, h: nat, top: nat, sums: map<Key, int>)
    requires h < top && Tower(nodes, h + 1, top, sums)
    requires sums != Sums(LevelAt(nodes, h))
    ensures Broken(nodes, h)
  {
    hide LevelOK, Sums, Tower, Headed;
    TowerBase(nodes, h + 1, top, sums);
    forall t: nat, items: map<Key, int> ensures !Tower(nodes, h, t, items) {
      if Tower(nodes, h, t, items) {
        TowerBase(nodes, h, t, items);
        if h <= t {
          TowerBase(nodes, h + 1, t, Sums(LevelAt(nodes, h)));
          LevelDetermines(LevelAt(nodes, h + 1), sums, Sums(LevelAt(nodes, h)));
        }
        assert false;
      }
    }
  }

  /** A node that has lost its first child is not headed any more. */
  lemma HeadLost(nodes: Nodes, h: nat, top: nat, items: map<Key, int>, p: Key)
    requires 2 <= h <= top && Tower(nodes, h, top, items)
    requires p in LevelAt(nodes, h) && p !in items
    ensures Broken(nodes, h)
  {
    var lvl := LevelAt(nodes, h);
    assert NodeOK(lvl.Keys, items, p, lvl[p]);
    assert ChildOK(lvl.Keys, items, p, lvl[p][0]);
    assert !HeadOK(p, lvl[p]);
  }

  // ---- dropping one node ----

  lemma DropSame(nodes: Nodes, l: nat, k: Key)
    ensures SameFrom(nodes, Drop(nodes, l, k), l + 1)
    ensures SameBelow(nodes, Drop(nodes, l, k), l)
    ensures LevelAt(Drop(nodes, l, k), l) == LevelAt(nodes, l) - {k}
    ensures LevelAt(Drop(nodes, l, k), l + 1) == LevelAt(nodes, l + 1)
  {
  }

  /** The levels above do not notice that a node goes. */
  lemma DropFrame(nodes: Nodes, l: nat, k: Key, top: nat, items: map<Key, int>)
    requires Tower(nodes, l + 1, top, items)
    ensures Tower(Drop(nodes, l, k), l + 1, top, items)
  {
    DropSame(nodes, l, k);
    TowerFrame(nodes, Drop(nodes, l, k), l + 1, top, items);
  }

  lemma DropKeepsHead(nodes: Nodes, l: nat, k: Key)
    requires Headed(nodes, 2)
    ensures Headed(Drop(nodes, l, k), 2)
  {
    var nodes' := Drop(nodes, l, k);
    forall j, x | j >= 2 && x in LevelAt(nodes', j) ensures HeadOK(x, LevelAt(nodes', j)[x]) {
      assert x in LevelAt(nodes, j);
    }
  }

  // ---- a stack in which one cached sum is out of date ----

  /** A well-formed stack, but for the sum that is cached for the node `p` of its lowest level. */
  ghost predicate TowerBut(nodes: Nodes, l: nat, top: nat, items: map<Key, int>, p: Key) {
    && l <= top && LevelOK(LevelAt(nodes, l), items) && p in LevelAt(nodes, l)
    && exists x :: TowerWith(nodes, l, top, p, x)
  }

  ghost predicate TowerWith(nodes: Nodes, l: nat, top: nat, p: Key, x: int) {
    Tower(nodes, l + 1, top, Sums(LevelAt(nodes, l))[p := x])
  }

  lemma TowerIsTowerBut(nodes: Nodes, l: nat, top: nat, items: map<Key, int>, p: Key)
    requires l <= top && Tower(nodes, l, top, items) && p in LevelAt(nodes, l)
    ensures TowerBut(nodes, l, top, items, p)
  {
    hide LevelOK, Tower;
    TowerBase(nodes, l, top, items);
    var sums := Sums(LevelAt(nodes, l));
    assert sums[p := sums[p]] == sums;
    assert TowerWith(nodes, l, top, p, sums[p]);
  }

  // ---- the chain of nodes that go together ----

  /** A node above level 1 with a single child carries the key of that child. */
  lemma SingleParent(nodes: Nodes, l: nat, top: nat, items: map<Key, int>, k: Key, p: Key)
    requires 1 <= l && l < top && Tower(nodes, l, top, items) && Headed(nodes, 2)
    requires k in LevelAt(nodes, l) && Covers(LevelAt(nodes, l + 1).Keys, p, k)
    requires p in LevelAt(nodes, l + 1) && |LevelAt(nodes, l + 1)[p]| == 1
    ensures p == k
  {
    hide LevelOK, Covers, Tower;
    TowerBase(nodes, l, top, items);
    TowerBase(nodes, l + 1, top, Sums(LevelAt(nodes, l)));
    OnlyChild(LevelAt(nodes, l + 1), Sums(LevelAt(nodes, l)), p, k);
    assert HeadOK(p, LevelAt(nodes, l + 1)[p]);
  }

  lemma ParentThere(nodes: Nodes, l: nat, top: nat, items: map<Key, int>, k: Key)
    requires l < top && Tower(nodes, l, top, items) && k in LevelAt(nodes, l)
    ensures
      var up := LevelAt(nodes, l + 1);
      var p := CoverOf(up.Keys, k);
      p in up && up[p] != [] && Covers(up.Keys, p, k)
  {
    hide LevelOK, Covers, Tower;
    TowerBase(nodes, l, top, items);
    TowerBase(nodes, l + 1, top, Sums(LevelAt(nodes, l)));
    NodeThere(LevelAt(nodes, l + 1), Sums(LevelAt(nodes, l)), CoverOf(LevelAt(nodes, l + 1).Keys, k), k);
  }

  /** If everything above goes, nothing was beside it. */
  lemma {:induction false} GoneAlone(nodes: Nodes, top: nat, l: nat, items: map<Key, int>, k: Key, c: Key)
    requires 1 <= l <= top && Tower(nodes, l, top, items) && Headed(nodes, 2)
    requires k in LevelAt(nodes, l) && |LevelAt(nodes, l)[k]| == 1 && LevelAt(nodes, l)[k][0].index == c
    requires Gone(nodes, top, l, k)
    ensures k == [] && LevelAt(nodes, l).Keys == {[]} && items.Keys == {c}
    decreases top - l
  {
    hide LevelOK, Covers, Tower, Headed, Accumulate;
    TowerBase(nodes, l, top, items);
    if l == top {
      TowerTop(nodes, l, top, items);
    } else {
      var up := LevelAt(nodes, l + 1);
      var p := CoverOf(up.Keys, k);
      ParentThere(nodes, l, top, items, k);
      SingleParent(nodes, l, top, items, k, p);
      OnlyChild(up, Sums(LevelAt(nodes, l)), p, k);
      GoneAlone(nodes, top, l + 1, Sums(LevelAt(nodes, l)), p, k);
    }
    OneItem(LevelAt(nodes, l), items, c);
  }

  /** The leftmost chain only survives by going altogether. */
  lemma {:induction false} LeftmostGoes(nodes: Nodes, m: nat, top: nat, l: nat, items: map<Key, int>)
    requires 1 <= l <= top && Tower(nodes, l, top, items) && Headed(nodes, 2)
    requires Survives(nodes, m, top, l, []) || Merges(nodes, m, top, l, [])
    ensures Gone(nodes, top, l, []) && !Merges(nodes, m, top, l, [])
    decreases top - l
  {
    hide LevelOK, Tower, Headed, Loses, Joined;
    assert !Merges(nodes, m, top, l, []);
    if l < top {
      TowerBase(nodes, l, top, items);
      ParentThere(nodes, l, top, items, []);
      assert CoverOf(LevelAt(nodes, l + 1).Keys, []) == [];
      LeftmostGoes(nodes, m, top, l + 1, Sums(LevelAt(nodes, l)));
    }
  }

  // ---- neighbours one level up ----

  /** Beside a node that is its parent's only child: what the neighbours one level up are. */
  lemma NeighboursAbove(nodes: Nodes, l: nat, top: nat, items: map<Key, int>, a: Key, k: Key, b: Key)
    requires 1 <= l < top && Tower(nodes, l, top, items) && Headed(nodes, 2)
    requires Neighbours(LevelAt(nodes, l).Keys, a, k, b)
    requires k in LevelAt(nodes, l + 1) && |LevelAt(nodes, l + 1)[k]| == 1 && LevelAt(nodes, l + 1)[k][0].index == k
    ensures
      var keys := LevelAt(nodes, l + 1).Keys;
      && RightOf(keys, b, k)
      && forall a' | LeftOf(keys, a', k) ::
           Covers(keys, a', a) && Covers(keys - {k} - {b}, a', a) && Covers(keys - {k} - {b}, a', b)
  {
    hide Tower, Accumulate, LevelOK, Covers, LeftOf, RightOf, Headed, Neighbours;
    TowerBase(nodes, l, top, items);
    var below, up := Sums(LevelAt(nodes, l)), LevelAt(nodes, l + 1);
    TowerBase(nodes, l + 1, top, below);
    forall x | x in up ensures x in below {
      HeadIsItem(nodes, l + 1, below, x);
    }
    assert below.Keys == LevelAt(nodes, l).Keys;
    assert b in below && b != k by { NeighboursThere(LevelAt(nodes, l).Keys, a, k, b); }
    OtherParent(up, below, k, b);
    KeysAbove(up.Keys, below.Keys, a, k, b, CoverOf(up.Keys, b));
  }

  lemma NeighboursThere(keys: set<Key>, a: Key, k: Key, b: Key)
    requires Neighbours(keys, a, k, b)
    ensures a in keys && b in keys && a != k && b != k && a != b
  {
  }

  /** An item beside the only child of `k` is listed by another node. */
  lemma OtherParent(lvl: Level, items: map<Key, int>, k: Key, b: Key)
    requires LevelOK(lvl, items) && b in items && b != k
    requires k in lvl && |lvl[k]| == 1 && lvl[k][0].index == k
    ensures Covers(lvl.Keys, CoverOf(lvl.Keys, b), b) && CoverOf(lvl.Keys, b) != k
  {
    var q := CoverOf(lvl.Keys, b);
    assert HasChild(lvl[q], b);
  }

  lemma KeysAbove(keys: set<Key>, below: set<Key>, a: Key, k: Key, b: Key, q: Key)
    requires keys <= below && k in keys && Neighbours(below, a, k, b) && Covers(keys, q, b) && q != k
    ensures RightOf(keys, b, k)
    ensures forall a' | LeftOf(keys, a', k) ::
              Covers(keys, a', a) && Covers(keys - {k} - {b}, a', a) && Covers(keys - {k} - {b}, a', b)
  {
    assert Rank(q) != Rank(k);
    assert Rank(q) == Rank(b) && q == b;
    forall x | x in keys && Rank(x) <= Rank(b) && x != b && x != k ensures Rank(x) < Rank(k) {
      assert Rank(x) != Rank(b) && Rank(x) != Rank(k);
    }
  }

  lemma HeadIsItem(nodes: Nodes, l: nat, items: map<Key, int>, x: Key)
    requires l >= 2 && LevelOK(LevelAt(nodes, l), items) && Headed(nodes, 2) && x in LevelAt(nodes, l)
    ensures x in items
  {
    var lvl := LevelAt(nodes, l);
    assert NodeOK(lvl.Keys, items, x, lvl[x]) && HeadOK(x, lvl[x]);
    assert ChildOK(lvl.Keys, items, x, lvl[x][0]);
  }

  // ---- the outcome of a removal ----

  /** What the levels from `l` up are after the node `k` lost its only child and went, with all that followed. */
  ghost predicate Outcome(before: Nodes, after: Nodes, m: nat, top: nat, l: nat, k: Key) {
    if Gone(before, top, l, k) then EmptyFrom(after, l)
    else if Merges(before, m, top, l, k) then Merged(before, after, top, l, k)
    else
      && LevelAt(after, l) == LevelAt(before, l) - {k}
      && if Survives(before, m, top, l, k) then Whole(before, after, top, l, k) else Broken(after, l + 1)
  }

  ghost predicate Merged(before: Nodes, after: Nodes, top: nat, l: nat, k: Key) {
    var lvl := LevelAt(before, l);
    && Headed(after, 2)
    && forall a, b | Neighbours(lvl.Keys, a, k, b) ::
         && LevelAt(after, l) == Merge(lvl - {k}, a, b)
         && Tower(after, l + 1, top, (Sums(lvl) - {k} - {b})[a := Accumulate(lvl[a])])
  }

  ghost predicate Whole(before: Nodes, after: Nodes, top: nat, l: nat, k: Key) {
    Headed(after, 2) && Tower(after, l + 1, top, Sums(LevelAt(before, l)) - {k})
  }

  /** The root lost its only child: nothing is left. */
  lemma RootGone(before: Nodes, after: Nodes, m: nat, top: nat, items: map<Key, int>, k: Key, c: Key)
    requires 1 <= top && Tower(before, top, top, items) && Headed(before, 2)
    requires k in LevelAt(before, top) && |LevelAt(before, top)[k]| == 1 && LevelAt(before, top)[k][0].index == c
    requires after == Drop(before, top, k)
    ensures Outcome(before, after, m, top, top, k)
  {
    hide LevelOK, Headed, Merges, Survives, Broken, Tower;
    GoneAlone(before, top, top, items, k, c);
    TowerTop(before, top, top, items);
    DropSame(before, top, k);
    forall j | j >= top ensures LevelAt(after, j) == map[] {
      assert j > top ==> LevelAt(before, j) == map[];
    }
  }

  /** The parent keeps another child, and the neighbours do not merge. */
  lemma ParentStays(before: Nodes, after: Nodes, m: nat, top: nat, l: nat, items: map<Key, int>, k: Key)
    requires 1 <= l < top && Tower(before, l, top, items) && k in LevelAt(before, l)
    requires Size(LevelAt(before, l + 1), CoverOf(LevelAt(before, l + 1).Keys, k)) > 1
    requires !Merges(before, m, top, l, k)
    requires LevelAt(after, l) == LevelAt(before, l) - {k}
    requires Tower(after, l + 1, top, Sums(LevelAt(before, l)) - {k})
    requires LevelAt(after, l + 1).Keys == LevelAt(before, l + 1).Keys
    requires CoverOf(LevelAt(before, l + 1).Keys, k) != k ==> Headed(after, 2)
    ensures Outcome(before, after, m, top, l, k)
  {
    hide LevelOK, Headed, Merges, Tower, Covers, Broken;
    var p := CoverOf(LevelAt(before, l + 1).Keys, k);
    ParentThere(before, l, top, items, k);
    if p == k {
      HeadLost(after, l + 1, top, Sums(LevelAt(before, l)) - {k}, p);
    }
  }

  /** The outcome is decided by the levels from `l` up. */
  lemma OutcomeFrame(x: Nodes, y: Nodes, after: Nodes, m: nat, top: nat, l: nat, k: Key)
    requires SameFrom(x, y, l) && Outcome(x, after, m, top, l, k)
    ensures Outcome(y, after, m, top, l, k)
  {
    hide Gone, Merges, Survives, Tower, Headed, Broken, Neighbours, Accumulate;
    SameFate(x, y, m, top, l, k);
    assert LevelAt(x, l) == LevelAt(y, l);
  }

  /** The parent went too: what it left is what the levels from its own up are now. */
  ghost predicate ParentWent(before: Nodes, after: Nodes, m: nat, top: nat, l: nat, items: map<Key, int>, k: Key) {
    && 1 <= l < top && Tower(before, l, top, items) && Headed(before, 2)
    && k in LevelAt(before, l) && |LevelAt(before, l)[k]| == 1
    && k in LevelAt(before, l + 1) && |LevelAt(before, l + 1)[k]| == 1
    && CoverOf(LevelAt(before, l + 1).Keys, k) == k
    && LevelAt(after, l) == LevelAt(before, l) - {k}
    && Outcome(before, after, m, top, l + 1, k)
  }

  lemma WentGone(before: Nodes, after: Nodes, m: nat, top: nat, l: nat, items: map<Key, int>, k: Key)
    requires ParentWent(before, after, m, top, l, items, k) && Gone(before, top, l + 1, k)
    ensures Outcome(before, after, m, top, l, k)
    ensures LevelAt(after, l) == map[]
  {
    hide LevelOK, Headed, Merges, Tower, Covers, Broken, Survives, Joined;
    GoneAlone(before, top, l, items, k, LevelAt(before, l)[k][0].index);
    forall j | j >= l ensures LevelAt(after, j) == map[] {}
  }

  /** The store after a merge of `k`'s neighbours at level `l`, seen from level `l`. */
  lemma MergedLevel(before: Nodes, after: Nodes, top: nat, l: nat, items: map<Key, int>, a: Key, k: Key, b: Key, c: Key)
    requires l <= top && LevelOK(LevelAt(before, l), items) && Neighbours(LevelAt(before, l).Keys, a, k, b)
    requires k in LevelAt(before, l) && |LevelAt(before, l)[k]| == 1 && LevelAt(before, l)[k][0].index == c
    requires LevelAt(after, l) == Merge(LevelAt(before, l) - {k}, a, b)
    ensures LevelOK(LevelAt(after, l), items - {c})
    ensures LevelAt(after, l).Keys == LevelAt(before, l).Keys - {k} - {b} && a in LevelAt(after, l)
    ensures
      var sums := Sums(LevelAt(before, l));
      Sums(LevelAt(after, l)) == (sums - {k} - {b})[a := sums[a] + sums[b]]
  {
    hide LevelOK, Accumulate, LeftOf, RightOf;
    var lvl := LevelAt(before, l);
    LeftmostStays(lvl.Keys, a, k, b);
    DropOK(lvl, items, k, c);
    NeighboursMeet(lvl.Keys, a, k, b);
    assert (lvl - {k}).Keys == lvl.Keys - {k};
    MergeOK(lvl - {k}, items - {c}, a, b);
    NeighboursThere(lvl.Keys, a, k, b);
    SumsMerge(lvl - {k}, a, b);
  }

  lemma LeftmostStays(keys: set<Key>, a: Key, k: Key, b: Key)
    requires Neighbours(keys, a, k, b)
    ensures k != []
  {
  }

  /** The parent went with a merge at its level, which the level below does not repeat. */
  lemma WentMerged(before: Nodes, after: Nodes, m: nat, top: nat, l: nat, items: map<Key, int>, k: Key, a: Key, b: Key)
    requires ParentWent(before, after, m, top, l, items, k)
    requires !Gone(before, top, l + 1, k) && Merges(before, m, top, l + 1, k) && !Merges(before, m, top, l, k)
    requires Neighbours(LevelAt(before, l + 1).Keys, a, k, b)
    ensures Outcome(before, after, m, top, l, k)
  {
    hide LevelOK, Headed, Merges, Tower, Covers, Joined, Accumulate, Neighbours, Broken, Merge, Loses;
    TowerBase(before, l, top, items);
    TowerBase(before, l + 1, top, Sums(LevelAt(before, l)));
    OnlyChildAbove(before, l, top, items, k);
    LosesAt(before, l + 1, a, k, b);
    TopAbove(before, top, l, items, a, k, b);
    assert Survives(before, m, top, l, k) == Survives(before, m, top, l + 1, k) == !Loses(before, l + 1, k);
    MergedAbove(before, after, top, l + 1, Sums(LevelAt(before, l)), a, k, b);
  }

  /** A merge at level `l`, seen from the level itself: the stack is whole if nothing was dropped, and broken otherwise. */
  lemma MergedAbove(before: Nodes, after: Nodes, top: nat, l: nat, items: map<Key, int>, a: Key, k: Key, b: Key)
    requires l < top && LevelOK(LevelAt(before, l), items) && Neighbours(LevelAt(before, l).Keys, a, k, b)
    requires k in LevelAt(before, l) && |LevelAt(before, l)[k]| == 1
    requires Merged(before, after, top, l, k)
    ensures b in LevelAt(before, l)
    ensures if Accumulate(LevelAt(before, l)[b]) == 0 then Tower(after, l, top, items - {LevelAt(before, l)[k][0].index})
            else Broken(after, l)
  {
    hide LevelOK, Headed, Tower, Covers, Accumulate, Neighbours, Broken, Merge;
    var c := LevelAt(before, l)[k][0].index;
    MergedLevel(before, after, top, l, items, a, k, b, c);
    NeighboursThere(LevelAt(before, l).Keys, a, k, b);
    var sums := Sums(LevelAt(before, l));
    var told := (sums - {k} - {b})[a := sums[a]];
    assert Tower(after, l + 1, top, told);
    if sums[b] == 0 {
      assert told == Sums(LevelAt(after, l));
      TowerOn(after, l, top, items - {c});
    } else {
      assert told[a] != Sums(LevelAt(after, l))[a];
      WrongSums(after, l, top, told);
    }
  }

  lemma OnlyChildAbove(nodes: Nodes, l: nat, top: nat, items: map<Key, int>, k: Key)
    requires 1 <= l < top && Tower(nodes, l, top, items) && k in LevelAt(nodes, l)
    requires k in LevelAt(nodes, l + 1) && |LevelAt(nodes, l + 1)[k]| == 1
    requires CoverOf(LevelAt(nodes, l + 1).Keys, k) == k
    ensures LevelAt(nodes, l + 1)[k][0].index == k
  {
    hide LevelOK, Tower, Covers;
    TowerBase(nodes, l, top, items);
    TowerBase(nodes, l + 1, top, Sums(LevelAt(nodes, l)));
    OnlyChild(LevelAt(nodes, l + 1), Sums(LevelAt(nodes, l)), k, k);
  }

  /** A level with more than one node is not the top. */
  lemma TopAbove(nodes: Nodes, top: nat, l: nat, items: map<Key, int>, a: Key, k: Key, b: Key)
    requires l < top && Tower(nodes, l, top, items) && Neighbours(LevelAt(nodes, l + 1).Keys, a, k, b)
    ensures l + 1 < top
  {
    hide Tower;
    TowerTop(nodes, l, top, items);
  }

  /** The parent went without a merge at its level. */
  lemma WentAlone(before: Nodes, after: Nodes, m: nat, top: nat, l: nat, items: map<Key, int>, k: Key)
    requires ParentWent(before, after, m, top, l, items, k)
    requires !Gone(before, top, l + 1, k) && !Merges(before, m, top, l + 1, k) && !Merges(before, m, top, l, k)
    ensures Outcome(before, after, m, top, l, k)
  {
    hide LevelOK, Headed, Merges, Tower, Covers, Joined, Accumulate, Broken;
    TowerBase(before, l, top, items);
    TowerBase(before, l + 1, top, Sums(LevelAt(before, l)));
    var below, up := Sums(LevelAt(before, l)), LevelAt(before, l + 1);
    if Survives(before, m, top, l + 1, k) {
      if k == [] {
        LeftmostGoes(before, m, top, l + 1, below);
        assert false;
      }
      OnlyChildAbove(before, l, top, items, k);
      DropOK(up, below, k, k);
      TowerOn(after, l + 1, top, below - {k});
    } else {
      BrokenBelow(after, l + 1);
    }
  }

  // ---- looking up the neighbours' parents ----

  /** The neighbours' parents are the same exactly if they are joined, and the stack above is then fit for the merge. */
  ghost predicate Lookup(before: Nodes, mid: Nodes, m: nat, top: nat, l: nat, a: Key, k: Key, b: Key)
    requires l < top
  {
    var keys := LevelAt(mid, l + 1).Keys;
    && [] in keys
    && (forall q, q' | Covers(keys, q, a) && Covers(keys, q', b) :: q == q' <==> Joined(before, m, top, l, a, k, b))
    && (Joined(before, m, top, l, a, k, b) ==> Headed(mid, 2))
    && (forall q | Covers(keys, q, a) && Joined(before, m, top, l, a, k, b) ::
          TowerBut(mid, l + 1, top, Sums(LevelAt(before, l)) - {k}, q))
  }

  /** If the neighbours share a parent, it is the parent of what was between them. */
  lemma ParentBetween(keys: set<Key>, p: Key, a: Key, k: Key, b: Key)
    requires Covers(keys, p, k) && Rank(a) < Rank(k) < Rank(b)
    ensures forall q, q' | Covers(keys, q, a) && Covers(keys, q', b) ::
              q == q' <==> Covers(keys, p, a) && Covers(keys, p, b)
    ensures Covers(keys, p, a) ==> p != k
  {
    forall q, q' | Covers(keys, q, a) && Covers(keys, q', b)
      ensures q == q' <==> Covers(keys, p, a) && Covers(keys, p, b)
    {
      if q == q' {
        assert Rank(p) == Rank(q);
      } else if Covers(keys, p, a) && Covers(keys, p, b) {
        CoverUnique(keys, p, q, a);
        CoverUnique(keys, p, q', b);
      }
    }
  }

  lemma LookupStays(before: Nodes, mid: Nodes, m: nat, top: nat, l: nat, items: map<Key, int>, a: Key, k: Key, b: Key)
    requires 1 <= l < top && Tower(before, l, top, items) && k in LevelAt(before, l)
    requires Neighbours(LevelAt(before, l).Keys, a, k, b)
    requires Size(LevelAt(before, l + 1), CoverOf(LevelAt(before, l + 1).Keys, k)) > 1
    requires Tower(mid, l + 1, top, Sums(LevelAt(before, l)) - {k})
    requires LevelAt(mid, l + 1).Keys == LevelAt(before, l + 1).Keys
    requires CoverOf(LevelAt(before, l + 1).Keys, k) != k ==> Headed(mid, 2)
    ensures Lookup(before, mid, m, top, l, a, k, b)
  {
    hide LevelOK, Headed, Merges, Tower, Covers, TowerBut, LeftOf, RightOf;
    var keys := LevelAt(mid, l + 1).Keys;
    var p := CoverOf(keys, k);
    ParentThere(before, l, top, items, k);
    TowerBase(before, l, top, items);
    TowerBase(before, l + 1, top, Sums(LevelAt(before, l)));
    NeighbourRanks(LevelAt(before, l).Keys, a, k, b);
    ParentBetween(keys, p, a, k, b);
    forall q | Covers(keys, q, a) ensures TowerBut(mid, l + 1, top, Sums(LevelAt(before, l)) - {k}, q) {
      CoverThere(keys, q, a);
      TowerIsTowerBut(mid, l + 1, top, Sums(LevelAt(before, l)) - {k}, q);
    }
  }

  lemma NeighbourRanks(keys: set<Key>, a: Key, k: Key, b: Key)
    requires Neighbours(keys, a, k, b)
    ensures Rank(a) < Rank(k) < Rank(b)
  {
  }

  lemma CoverThere(keys: set<Key>, q: Key, a: Key)
    requires Covers(keys, q, a)
    ensures q in keys && Rank(q) <= Rank(a)
  {
  }

  lemma LookupMerged(before: Nodes, mid: Nodes, m: nat, top: nat, l: nat, items: map<Key, int>,
                     a: Key, k: Key, b: Key, a': Key, b': Key)
    requires ParentWent(before, mid, m, top, l, items, k) && Neighbours(LevelAt(before, l).Keys, a, k, b)
    requires !Gone(before, top, l + 1, k) && Merges(before, m, top, l + 1, k)
    requires Neighbours(LevelAt(before, l + 1).Keys, a', k, b')
    ensures Lookup(before, mid, m, top, l, a, k, b)
  {
    hide LevelOK, Headed, Tower, Covers, Accumulate, Neighbours, Merge, Merges, Survives, Broken, Gone;
    TowerBase(before, l, top, items);
    TowerBase(before, l + 1, top, Sums(LevelAt(before, l)));
    OnlyChildAbove(before, l, top, items, k);
    NeighboursAbove(before, l, top, items, a, k, b);
    SameRight(LevelAt(before, l + 1).Keys, a', k, b', b);
    var below, up := Sums(LevelAt(before, l)), Sums(LevelAt(before, l + 1));
    MergedLevel(before, mid, top, l + 1, below, a', k, b, k);
    var keys := LevelAt(mid, l + 1).Keys;
    assert Covers(keys, a', a) && Covers(keys, a', b);
    var told := (up - {k} - {b})[a' := up[a']];
    assert told == Sums(LevelAt(mid, l + 1))[a' := up[a']];
    assert TowerWith(mid, l + 1, top, a', up[a']);
    forall q, q' | Covers(keys, q, a) && Covers(keys, q', b) ensures q == a' == q' {
      CoverUnique(keys, q, a', a);
      CoverUnique(keys, q', a', b);
    }
    LeftmostThere(keys, LevelAt(before, l + 1).Keys, a', k, b);
  }

  lemma SameRight(keys: set<Key>, a: Key, k: Key, b: Key, b': Key)
    requires Neighbours(keys, a, k, b) && RightOf(keys, b', k)
    ensures b == b' && LeftOf(keys, a, k)
  {
    NeighboursUnique(keys, k, a, b, a, b');
  }

  lemma LeftmostThere(keys: set<Key>, all: set<Key>, a: Key, k: Key, b: Key)
    requires Neighbours(all, a, k, b) && [] in all && all - {k} - {b} <= keys
    ensures [] in keys
  {
  }

  lemma LookupAlone(before: Nodes, mid: Nodes, m: nat, top: nat, l: nat, items: map<Key, int>, a: Key, k: Key, b: Key)
    requires ParentWent(before, mid, m, top, l, items, k) && Neighbours(LevelAt(before, l).Keys, a, k, b)
    requires !Gone(before, top, l + 1, k) && !Merges(before, m, top, l + 1, k)
    ensures Lookup(before, mid, m, top, l, a, k, b)
  {
    hide LevelOK, Headed, Tower, Accumulate, Merges, Survives, Broken, Gone, LeftOf, RightOf;
    TowerBase(before, l, top, items);
    TowerBase(before, l + 1, top, Sums(LevelAt(before, l)));
    OnlyChildAbove(before, l, top, items, k);
    NeighboursThere(LevelAt(before, l).Keys, a, k, b);
    NeighbourRanks(LevelAt(before, l).Keys, a, k, b);
    LeftmostStays(LevelAt(before, l).Keys, a, k, b);
    var up := LevelAt(before, l + 1);
    OtherParent(up, Sums(LevelAt(before, l)), k, b);
    var q := CoverOf(up.Keys, b);
    assert Rank(q) > Rank(k);
    var keys := LevelAt(mid, l + 1).Keys;
    forall x, x' | Covers(keys, x, a) && Covers(keys, x', b) ensures x != x' {
      assert Rank(x') >= Rank(q);
    }
  }

  /** After the merge. */
  lemma MergeDone(before: Nodes, after: Nodes, m: nat, top: nat, l: nat, items: map<Key, int>, a: Key, k: Key, b: Key, c: Key)
    requires 1 <= l < top && Tower(before, l, top, items) && Headed(before, 2) && Neighbours(LevelAt(before, l).Keys, a, k, b)
    requires k in LevelAt(before, l) && |LevelAt(before, l)[k]| == 1 && LevelAt(before, l)[k][0].index == c
    requires Merges(before, m, top, l, k)
    requires LevelAt(after, l) == Merge(LevelAt(before, l) - {k}, a, b) && Headed(after, 2)
    requires Tower(after, l + 1, top, (Sums(LevelAt(before, l)) - {k} - {b})[a := Accumulate(LevelAt(before, l)[a])])
    ensures Outcome(before, after, m, top, l, k)
  {
    hide LevelOK, Headed, Tower, Accumulate, Merges, Survives, Broken, Neighbours, Merge, Gone;
    if Gone(before, top, l, k) {
      GoneAlone(before, top, l, items, k, c);
      LeftmostStays(LevelAt(before, l).Keys, a, k, b);
      assert false;
    }
    forall a', b' | Neighbours(LevelAt(before, l).Keys, a', k, b') ensures a' == a && b' == b {
      NeighboursUnique(LevelAt(before, l).Keys, k, a, b, a', b');
    }
  }

  // ---- the outcome at the bottom ----

  /** At level 1 the outcome decides whether the store still holds a tree. */
  lemma OutcomeDecides(before: Nodes, after: Nodes, m: nat, top: nat, items: map<Key, int>, k: Key, c: Key)
    requires 1 <= top && Tower(before, 1, top, items) && Headed(before, 2)
    requires k in LevelAt(before, 1) && |LevelAt(before, 1)[k]| == 1 && LevelAt(before, 1)[k][0].index == c
    requires Outcome(before, after, m, top, 1, k)
    ensures
      if Gone(before, top, 1, k) then EmptyFrom(after, 1) && items.Keys == {c} && Survives(before, m, top, 1, k)
      else if Survives(before, m, top, 1, k) then Tower(after, 1, top, items - {c}) && Headed(after, 2)
      else Broken(after, 1)
  {
    hide LevelOK, Headed, Tower, Accumulate, Broken, Neighbours, Merge, Joined, Loses;
    TowerBase(before, 1, top, items);
    var lvl := LevelAt(before, 1);
    if Gone(before, top, 1, k) {
      GoneAlone(before, top, 1, items, k, c);
      GoneSurvives(before, m, top, 1, items, k);
    } else if Merges(before, m, top, 1, k) {
      var a, b :| Neighbours(lvl.Keys, a, k, b);
      MergedDecides(before, after, m, top, items, a, k, b, c);
    } else if Survives(before, m, top, 1, k) {
      if k == [] {
        LeftmostGoes(before, m, top, 1, items);
        assert false;
      }
      DropOK(lvl, items, k, c);
      TowerOn(after, 1, top, items - {c});
    } else {
      BrokenBelow(after, 1);
    }
  }

  lemma MergedDecides(before: Nodes, after: Nodes, m: nat, top: nat, items: map<Key, int>, a: Key, k: Key, b: Key, c: Key)
    requires 1 <= top && LevelOK(LevelAt(before, 1), items) && Neighbours(LevelAt(before, 1).Keys, a, k, b)
    requires k in LevelAt(before, 1) && |LevelAt(before, 1)[k]| == 1 && LevelAt(before, 1)[k][0].index == c
    requires Merges(before, m, top, 1, k) && Merged(before, after, top, 1, k)
    ensures if Survives(before, m, top, 1, k) then Tower(after, 1, top, items - {c}) && Headed(after, 2) else Broken(after, 1)
  {
    hide LevelOK, Headed, Tower, Accumulate, Broken, Neighbours, Merge, Joined, Merges, Loses;
    LosesAt(before, 1, a, k, b);
    assert 1 < top by { MergesAt(before, m, top, 1, a, k, b); }
    MergedAbove(before, after, top, 1, items, a, k, b);
  }

  /** A chain that goes up to the root leaves nothing to break. */
  lemma {:induction false} GoneSurvives(nodes: Nodes, m: nat, top: nat, l: nat, items: map<Key, int>, k: Key)
    requires 1 <= l <= top && Tower(nodes, l, top, items) && Headed(nodes, 2)
    requires k in LevelAt(nodes, l) && |LevelAt(nodes, l)[k]| == 1 && Gone(nodes, top, l, k)
    ensures Survives(nodes, m, top, l, k)
    decreases top - l
  {
    hide LevelOK, Headed, Tower, Accumulate, Joined, Covers;
    if l < top {
      GoneAlone(nodes, top, l, items, k, LevelAt(nodes, l)[k][0].index);
      TowerBase(nodes, l, top, items);
      ParentThere(nodes, l, top, items, k);
      GoneSurvives(nodes, m, top, l + 1, Sums(LevelAt(nodes, l)), CoverOf(LevelAt(nodes, l + 1).Keys, k));
    }
  }

  /** A store with a tree, or an empty one, is not broken. */
  lemma NotBroken(nodes: Nodes, t: nat, leaves: map<Key, int>)
    requires if t == 0 then EmptyFrom(nodes, 1) else Tower(nodes, 1, t, leaves) && Headed(nodes, 2)
    ensures !Broken(nodes, 1)
  {
    hide LevelOK;
    if t == 0 {
      EmptyTower(nodes, 1, 0, map[[] := 0]);
    }
    assert Headed(nodes, 2);
  }

  // ---- the steps of the method that pulls ----

  /** What the two searches for neighbours return. */
  ghost predicate NeighboursFound(keys: set<Key>, left: Option<Key>, k: Key, right: Option<Key>) {
    && (if left.Some? then LeftOf(keys, left.value, k) else forall x | x in keys :: Rank(k) <= Rank(x))
    && (if right.Some? then RightOf(keys, right.value, k) else forall x | x in keys :: Rank(x) <= Rank(k))
  }

  lemma FoundBoth(keys: set<Key>, left: Option<Key>, k: Key, right: Option<Key>)
    requires left.None? ==> forall x | x in keys :: Rank(k) <= Rank(x)
    requires left.Some? ==> left.value in keys && Rank(left.value) < Rank(k)
    requires left.Some? ==> forall x | x in keys && Rank(x) < Rank(k) :: Rank(x) <= Rank(left.value)
    requires right.None? ==> forall x | x in keys :: Rank(x) <= Rank(k)
    requires right.Some? ==> RightOf(keys, right.value, k)
    ensures NeighboursFound(keys, left, k, right)
  {
  }

  lemma BothFound(keys: set<Key>, left: Option<Key>, k: Key, right: Option<Key>)
    requires NeighboursFound(keys, left, k, right) && left.Some? && right.Some?
    ensures Neighbours(keys, left.value, k, right.value)
  {
  }

  lemma NoneFound(nodes: Nodes, m: nat, top: nat, l: nat, left: Option<Key>, k: Key, right: Option<Key>)
    requires NeighboursFound(LevelAt(nodes, l).Keys, left, k, right) && (left.None? || right.None?)
    ensures !Merges(nodes, m, top, l, k)
  {
    hide Joined;
  }

  lemma SameBelowRefl(nodes: Nodes, l: nat)
    ensures SameBelow(nodes, nodes, l)
  {
  }

  lemma BelowStep(x: Nodes, y: Nodes, l: nat)
    requires SameBelow(x, y, l + 1)
    ensures SameBelow(x, y, l) && LevelAt(x, l) == LevelAt(y, l)
  {
  }

  lemma BelowTrans(w: Nodes, x: Nodes, y: Nodes, z: Nodes, l: nat)
    requires SameBelow(w, x, l) && SameBelow(x, y, l) && SameBelow(y, z, l)
    ensures SameBelow(w, z, l)
  {
    hide SameBelow;
    SameBelowTrans(w, x, y, l);
    SameBelowTrans(w, y, z, l);
  }

  /** Moving the right node's children to the left node, before any parent is told. */
  lemma MergeFrame(nodes: Nodes, level: nat, top: nat, l: Key, r: Key, p: Key)
    requires l in LevelAt(nodes, level) && r in LevelAt(nodes, level) && l != r && Headed(nodes, 2)
    requires TowerBut(nodes, level + 1, top, Sums(LevelAt(nodes, level)), p)
    ensures
      var lvl := LevelAt(nodes, level);
      var nodes' := Drop(Put(nodes, level, l, lvl[l] + lvl[r]), level, r);
      && SameBelow(nodes, nodes', level)
      && LevelAt(nodes', level) == Merge(lvl, l, r) && LevelAt(nodes', level + 1) == LevelAt(nodes, level + 1)
      && TowerBut(nodes', level + 1, top, Sums(lvl), p) && Headed(nodes', 2)
  {
    hide LevelOK, Tower, Accumulate, Headed, Put, Drop;
    var lvl := LevelAt(nodes, level);
    var cs := lvl[l] + lvl[r];
    var n1 := Put(nodes, level, l, cs);
    var n2 := Drop(n1, level, r);
    PutSame(nodes, level, l, cs);
    DropSame(n1, level, r);
    assert SameFrom(nodes, n2, level + 1);
    var x :| TowerWith(nodes, level + 1, top, p, x);
    assert LevelAt(n2, level + 1) == LevelAt(nodes, level + 1);
    TowerFrame(nodes, n2, level + 2, top, Sums(LevelAt(nodes, level + 1))[p := x]);
    assert TowerWith(n2, level + 1, top, p, x);
    ConcatKeepsHead(nodes, level, l, r);
    DropKeepsHead(n1, level, r);
    SameBelowTrans(nodes, n1, n2, level);
  }

  lemma ConcatKeepsHead(nodes: Nodes, level: nat, l: Key, r: Key)
    requires l in LevelAt(nodes, level) && r in LevelAt(nodes, level) && Headed(nodes, 2)
    ensures Headed(Put(nodes, level, l, LevelAt(nodes, level)[l] + LevelAt(nodes, level)[r]), 2)
  {
    hide Put, Headed;
    if level >= 2 { HeadAt(nodes, level, l); }
    PutKeeps(nodes, level, l, LevelAt(nodes, level)[l] + LevelAt(nodes, level)[r], 2, 0, 0);
  }

  lemma HeadAt(nodes: Nodes, level: nat, l: Key)
    requires level >= 2 && l in LevelAt(nodes, level) && Headed(nodes, 2)
    ensures HeadOK(l, LevelAt(nodes, level)[l])
  {
  }

  lemma ButTwoChildren(nodes: Nodes, l: nat, top: nat, items: map<Key, int>, p: Key, a: Key, b: Key)
    requires TowerBut(nodes, l, top, items, p) && a in items && b in items && Rank(a) < Rank(b)
    requires Covers(LevelAt(nodes, l).Keys, p, a) && Covers(LevelAt(nodes, l).Keys, p, b)
    ensures |LevelAt(nodes, l)[p]| > 1 && p != b && l <= top
  {
    hide LevelOK, Tower;
    TwoChildren(LevelAt(nodes, l), items, p, a, b);
  }

  lemma NoParent(nodes: Nodes, l: nat, top: nat, items: map<Key, int>, k: Key, p: Key)
    requires l <= top && Tower(nodes, l, top, items) && p !in LevelAt(nodes, l + 1)
    requires LevelAt(nodes, l + 1) != map[] ==> Covers(LevelAt(nodes, l + 1).Keys, p, k)
    ensures l == top
  {
    hide LevelOK, Tower;
    TowerBase(nodes, l, top, items);
    TowerBase(nodes, l + 1, top, Sums(LevelAt(nodes, l)));
  }

  lemma ParentFound(nodes: Nodes, l: nat, top: nat, items: map<Key, int>, k: Key, p: Key)
    requires l <= top && Tower(nodes, l, top, items) && k in LevelAt(nodes, l)
    requires p in LevelAt(nodes, l + 1) && Covers(LevelAt(nodes, l + 1).Keys, p, k)
    ensures l < top && p == CoverOf(LevelAt(nodes, l + 1).Keys, k) && LevelAt(nodes, l + 1)[p] != []
  {
    hide LevelOK, Tower, Covers;
    TowerBase(nodes, l, top, items);
    TowerBase(nodes, l + 1, top, Sums(LevelAt(nodes, l)));
    ParentThere(nodes, l, top, items, k);
    CoverUnique(LevelAt(nodes, l + 1).Keys, p, CoverOf(LevelAt(nodes, l + 1).Keys, k), k);
  }

  /** What the merging step needs to know: where a merge is due, and that otherwise everything is done. */
  ghost predicate Told(before: Nodes, mid: Nodes, m: nat, top: nat, l: nat, left: Option<Key>, k: Key, right: Option<Key>)
    requires l < top
  {
    && LevelAt(mid, l) == LevelAt(before, l) - {k}
    && (left.Some? && right.Some? ==> Lookup(before, mid, m, top, l, left.value, k, right.value))
    && (!Merges(before, m, top, l, k) ==> Outcome(before, mid, m, top, l, k))
  }

  lemma Stays(before: Nodes, mid: Nodes, m: nat, top: nat, l: nat, items: map<Key, int>,
              left: Option<Key>, k: Key, right: Option<Key>)
    requires 1 <= l < top && Tower(before, l, top, items) && k in LevelAt(before, l)
    requires NeighboursFound(LevelAt(before, l).Keys, left, k, right)
    requires Size(LevelAt(before, l + 1), CoverOf(LevelAt(before, l + 1).Keys, k)) > 1
    requires LevelAt(mid, l) == LevelAt(before, l) - {k}
    requires Tower(mid, l + 1, top, Sums(LevelAt(before, l)) - {k})
    requires LevelAt(mid, l + 1).Keys == LevelAt(before, l + 1).Keys
    requires CoverOf(LevelAt(before, l + 1).Keys, k) != k ==> Headed(mid, 2)
    ensures Told(before, mid, m, top, l, left, k, right)
  {
    hide Tower, Headed, Merges, Outcome, Lookup, Neighbours;
    if left.Some? && right.Some? {
      BothFound(LevelAt(before, l).Keys, left, k, right);
      LookupStays(before, mid, m, top, l, items, left.value, k, right.value);
    }
    if !Merges(before, m, top, l, k) {
      ParentStays(before, mid, m, top, l, items, k);
    }
  }

  lemma Went(before: Nodes, mid: Nodes, m: nat, top: nat, l: nat, items: map<Key, int>,
             left: Option<Key>, k: Key, right: Option<Key>)
    requires ParentWent(before, mid, m, top, l, items, k)
    requires NeighboursFound(LevelAt(before, l).Keys, left, k, right)
    ensures Told(before, mid, m, top, l, left, k, right)
  {
    hide Tower, Headed, Merges, Outcome, Lookup, Gone, Neighbours;
    if Gone(before, top, l + 1, k) {
      WentGone(before, mid, m, top, l, items, k);
      AloneFindsNone(before, mid, m, top, l, items, left, k, right);
    } else if Merges(before, m, top, l + 1, k) {
      var a', b' := MergeHasNeighbours(before, m, top, l + 1, k);
      if left.Some? && right.Some? {
        BothFound(LevelAt(before, l).Keys, left, k, right);
        LookupMerged(before, mid, m, top, l, items, left.value, k, right.value, a', b');
      }
      if !Merges(before, m, top, l, k) {
        WentMerged(before, mid, m, top, l, items, k, a', b');
      }
    } else {
      if left.Some? && right.Some? {
        BothFound(LevelAt(before, l).Keys, left, k, right);
        LookupAlone(before, mid, m, top, l, items, left.value, k, right.value);
      }
      if !Merges(before, m, top, l, k) {
        WentAlone(before, mid, m, top, l, items, k);
      }
    }
  }

  lemma MergeHasNeighbours(nodes: Nodes, m: nat, top: nat, l: nat, k: Key) returns (a: Key, b: Key)
    requires Merges(nodes, m, top, l, k)
    ensures Neighbours(LevelAt(nodes, l).Keys, a, k, b)
  {
    hide Joined, Neighbours;
    a, b :| Neighbours(LevelAt(nodes, l).Keys, a, k, b);
  }

  lemma AloneFindsNone(before: Nodes, mid: Nodes, m: nat, top: nat, l: nat, items: map<Key, int>,
                       left: Option<Key>, k: Key, right: Option<Key>)
    requires ParentWent(before, mid, m, top, l, items, k) && Gone(before, top, l + 1, k)
    requires NeighboursFound(LevelAt(before, l).Keys, left, k, right)
    ensures left.None? && right.None?
  {
    hide Tower, Headed, Outcome;
    GoneAlone(before, top, l, items, k, LevelAt(before, l)[k][0].index);
  }

  /** The store right after the node itself is dropped. */
  lemma Dropping(nodes: Nodes, l: nat, k: Key, top: nat, items: map<Key, int>)
    requires l <= top && Tower(nodes, l, top, items) && Headed(nodes, 2)
    ensures
      var nodes' := Drop(nodes, l, k);
      && SameBelow(nodes, nodes', l)
      && LevelAt(nodes', l) == LevelAt(nodes, l) - {k} && LevelAt(nodes', l + 1) == LevelAt(nodes, l + 1)
      && Tower(nodes', l + 1, top, Sums(LevelAt(nodes, l))) && Headed(nodes', 2)
  {
    hide LevelOK, Headed, Tower;
    TowerBase(nodes, l, top, items);
    DropSame(nodes, l, k);
    DropFrame(nodes, l, k, top, Sums(LevelAt(nodes, l)));
    DropKeepsHead(nodes, l, k);
  }

  lemma ToldStays(before: Nodes, dropped: Nodes, mid: Nodes, m: nat, top: nat, l: nat, items: map<Key, int>,
                  left: Option<Key>, k: Key, right: Option<Key>)
    requires 1 <= l < top && Tower(before, l, top, items) && k in LevelAt(before, l)
    requires NeighboursFound(LevelAt(before, l).Keys, left, k, right)
    requires Size(LevelAt(before, l + 1), CoverOf(LevelAt(before, l + 1).Keys, k)) > 1
    requires LevelAt(dropped, l) == LevelAt(before, l) - {k} && SameBelow(dropped, mid, l + 1)
    requires Tower(mid, l + 1, top, Sums(LevelAt(before, l)) - {k})
    requires LevelAt(mid, l + 1).Keys == LevelAt(before, l + 1).Keys
    requires CoverOf(LevelAt(before, l + 1).Keys, k) != k ==> Headed(mid, 2)
    ensures Told(before, mid, m, top, l, left, k, right) && SameBelow(dropped, mid, l)
  {
    hide Tower, Headed, Told, NeighboursFound, SameBelow;
    BelowStep(dropped, mid, l);
    Stays(before, mid, m, top, l, items, left, k, right);
  }

  lemma ToldWent(before: Nodes, mid: Nodes, m: nat, top: nat, l: nat, items: map<Key, int>,
                 left: Option<Key>, k: Key, right: Option<Key>)
    requires 1 <= l < top && Tower(before, l, top, items) && Headed(before, 2)
    requires k in LevelAt(before, l) && |LevelAt(before, l)[k]| == 1
    requires k in LevelAt(before, l + 1) && |LevelAt(before, l + 1)[k]| == 1
    requires CoverOf(LevelAt(before, l + 1).Keys, k) == k
    requires NeighboursFound(LevelAt(before, l).Keys, left, k, right)
    requires SameBelow(Drop(before, l, k), mid, l + 1) && Outcome(Drop(before, l, k), mid, m, top, l + 1, k)
    ensures Told(before, mid, m, top, l, left, k, right) && SameBelow(Drop(before, l, k), mid, l)
  {
    hide Tower, Headed, Told, NeighboursFound, SameBelow, Outcome, Drop;
    DropSame(before, l, k);
    BelowStep(Drop(before, l, k), mid, l);
    assert SameFrom(Drop(before, l, k), before, l + 1);
    OutcomeFrame(Drop(before, l, k), before, mid, m, top, l + 1, k);
    Went(before, mid, m, top, l, items, left, k, right);
  }
}
