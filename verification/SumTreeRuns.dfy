/** Runs of the sum tree's interface that end where a promise is broken. */
module SumTreeRuns {
  import opened Options
  import opened KeyOrder
  import opened SumTreeLevel
  import opened SumTreeTower
  import opened SumTreeQuery
  import opened SumTreeRemove
  import opened SumTreePull
  import opened SumTreeHeight
  import opened SumTree

  // ---- a query that panics ----

  /** A tree that was only added to and has at most three leaves is one node. */
  lemma FewLeaves(t: Tree)
    requires t.Valid() && t.Built() && t.m >= 3 && |t.leaves| <= 3
    ensures t.top == 1 && LevelAt(t.nodes, 1).Keys == {[]}
  {
    hide Tower, Filled, Headed;
    if t.top >= 2 {
      HeightBound(t.nodes, t.m, t.top, t.leaves);
      PowTwo(t.top);
      assert false;
    }
    TowerTop(t.nodes, 1, t.top, t.leaves);
  }

  lemma {:induction false} PowTwo(n: nat)
    requires n >= 2
    ensures Pow(2, n) >= 4
  {
    if n > 2 { PowTwo(n - 1); } else { assert Pow(2, 1) == 2; }
  }

  /** A tree with one key besides the empty one. */
  method TwoLeaves(m: nat, key: Key, v: int) returns (t: Tree)
    requires 3 <= m < 256 && key != []
    ensures fresh(t) && t.Valid() && t.top == 1 && t.leaves == map[[] := 0, key := v] && !t.Empties([])
  {
    hide Tower, Filled, Headed, EmptyFrom, LevelOK, Covers;
    NothingStored();
    t := new Tree(m, map[], map[], 0);
    t.Set(key, v);
    FewLeaves(t);
    OneNode(t, key);
  }

  /** One key is set and the empty one removed: the tree is well formed, but a query for the empty key panics. */
  method EmptyKeyRemoved(m: nat, key: Key, v: int) returns (t: Tree, r: Option<Split>)
    requires 3 <= m < 256 && key != []
    ensures fresh(t) && t.Valid() && t.leaves == map[key := v]
    ensures r == None
  {
    hide Tower, Filled, Headed, EmptyFrom, LevelOK, Covers, Survives, SumBelow, SumAbove, ValueAt;
    t := TwoLeaves(m, key, v);
    t.Remove([]);
    assert map[[] := 0, key := v] - {[]} == map[key := v];
    t.EmptyKeyGrounded();
    r := t.SplitAcc([]);
  }

  lemma NothingStored()
    ensures EmptyFrom(map[], 1)
  {
  }

  lemma OneNode(t: Tree, key: Key)
    requires t.Valid() && t.top == 1 && LevelAt(t.nodes, 1).Keys == {[]}
    requires [] in t.leaves && key in t.leaves && key != []
    ensures !t.Empties([])
  {
    hide Tower, LevelOK;
    TowerBase(t.nodes, 1, t.top, t.leaves);
    RootCovers({[]}, []);
    RootCovers({[]}, key);
    TwoChildren(LevelAt(t.nodes, 1), t.leaves, [], [], key);
    CoverUnique({[]}, [], CoverOf({[]}, []), []);
  }

  // ---- a removal that loses a value ----

  /** If the nodes of level 1 have just the leaves at their own keys, they have no other children. */
  lemma OwnLeafOnly(lvl: Level, leaves: map<Key, int>, k: Key)
    requires LevelOK(lvl, leaves) && leaves.Keys == lvl.Keys && k in lvl
    ensures lvl[k] == [Child(k, leaves[k])]
  {
    assert NodeOK(lvl.Keys, leaves, k, lvl[k]);
    assert |lvl[k]| > 1 ==> Rank(lvl[k][0].index) < Rank(lvl[k][1].index);
    forall i | 0 <= i < |lvl[k]| ensures lvl[k][i] == Child(k, leaves[k]) {
      assert ChildOK(lvl.Keys, leaves, k, lvl[k][i]);
      assert Rank(lvl[k][i].index) == Rank(k);
    }
  }

  /** Removing a leaf between two others, one leaf to a node under one root, loses the value of the right one. */
  lemma LossyRemoval(t: Tree, a: Key, k: Key, b: Key)
    requires t.Valid() && t.top == 2 && t.m >= 3
    requires t.leaves.Keys == LevelAt(t.nodes, 1).Keys && Neighbours(t.leaves.Keys, a, k, b)
    requires k in t.leaves && b in t.leaves && t.leaves[b] != 0
    ensures !t.RemoveKeeps(k)
  {
    hide Tower, LevelOK, Headed, Accumulate, Covers, Neighbours;
    var nodes, lvl := t.nodes, LevelAt(t.nodes, 1);
    TowerBase(nodes, 1, 2, t.leaves);
    TowerBase(nodes, 2, 2, Sums(lvl));
    TowerTop(nodes, 1, 2, t.leaves);
    NeighboursThere(lvl.Keys, a, k, b);
    OwnLeafOnly(lvl, t.leaves, a);
    OwnLeafOnly(lvl, t.leaves, k);
    OwnLeafOnly(lvl, t.leaves, b);
    AccumulateOne(lvl[b][0]);
    SelfCovered(lvl.Keys, k);
    RootCovers({[]}, a);
    RootCovers({[]}, k);
    RootCovers({[]}, b);
    CoverUnique({[]}, [], CoverOf({[]}, k), k);
    TwoChildren(LevelAt(nodes, 2), Sums(lvl), [], a, b);
    MergesAt(nodes, t.m, 2, 1, a, k, b);
    LosesAt(nodes, 1, a, k, b);
  }

  lemma SelfCovered(keys: set<Key>, k: Key)
    requires [] in keys && k in keys
    ensures CoverOf(keys, k) == k
  {
    assert Rank(CoverOf(keys, k)) == Rank(k);
  }

  lemma {:induction false} CountAtMost(lvl: Level, items: map<Key, int>, ks: set<Key>, n: nat)
    requires LevelOK(lvl, items) && ks <= lvl.Keys
    requires forall k | k in ks :: |lvl[k]| <= n
    ensures |KidsOf(lvl, ks)| <= n * |ks|
    decreases |ks|
  {
    hide LevelOK, Kids, Covers, Sorted;
    if ks == {} {
      assert KidsOf(lvl, ks) == {};
    } else {
      var k :| k in ks;
      var rest := ks - {k};
      CountAtMost(lvl, items, rest, n);
      NodeMirrors(lvl, items, k);
      KidsCount(lvl[k]);
      assert KidsOf(lvl, ks) == KidsOf(lvl, rest) + Kids(lvl[k]);
      assert |ks| == |rest| + 1;
      UnionCount(KidsOf(lvl, rest), Kids(lvl[k]), n, |rest|);
    }
  }

  lemma UnionCount(a: set<Key>, b: set<Key>, n: nat, x: nat)
    requires |a| <= n * x && |b| <= n
    ensures |a + b| <= n * (x + 1)
  {
    assert a + b == a + (b - a);
    SubsetCount(b - a, b);
    assert n * (x + 1) == n * x + n;
  }

  /** Seven leaves, at three to a node, take three nodes and a root above them. */
  lemma SevenLeaves(t: Tree)
    requires t.Valid() && t.Built() && t.m == 3 && |t.leaves| == 7
    ensures t.top == 2 && |LevelAt(t.nodes, 1)| >= 3
  {
    hide Tower, LevelOK, Headed, Covers;
    var lvl := LevelAt(t.nodes, 1);
    TowerBase(t.nodes, 1, t.top, t.leaves);
    forall k | k in lvl ensures |lvl[k]| <= 3 { assert FillOK(t.m, 1, t.top, |lvl[k]|); }
    CountAtMost(lvl, t.leaves, lvl.Keys, 3);
    AllKids(lvl, t.leaves);
    if t.top == 1 {
      OneRoot(t);
    } else if t.top >= 3 {
      HeightBound(t.nodes, 3, t.top, t.leaves);
      PowTwo(t.top - 1);
    }
  }

  lemma OneRoot(t: Tree)
    requires t.Valid() && t.top == 1
    ensures |LevelAt(t.nodes, 1)| == 1
  {
    hide Tower;
    TowerTop(t.nodes, 1, 1, t.leaves);
    assert |LevelAt(t.nodes, 1)| == |LevelAt(t.nodes, 1).Keys|;
  }

  lemma AllKids(lvl: Level, items: map<Key, int>)
    requires LevelOK(lvl, items)
    ensures KidsOf(lvl, lvl.Keys) == items.Keys
  {
    hide LevelOK, Kids, Covers;
    SumOfKids(lvl, items, lvl.Keys);
    forall c | c in items ensures c in KidsOf(lvl, lvl.Keys) {
      RootThere(lvl, items);
      var k := CoverExists(lvl.Keys, c);
      NodeThere(lvl, items, k, c);
      NodeMirrors(lvl, items, k);
      assert c in Kids(lvl[k]);
    }
  }

  /** A leaf beside the one at its node's own key is not the only one. */
  lemma BesideHead(t: Tree, c: Key)
    requires t.Valid() && t.top >= 1 && c in t.leaves
    requires c !in LevelAt(t.nodes, 1) && LevelAt(t.nodes, 1).Keys <= t.leaves.Keys
    ensures !t.Empties(c)
  {
    hide Tower, LevelOK, Covers;
    var lvl := LevelAt(t.nodes, 1);
    TowerBase(t.nodes, 1, t.top, t.leaves);
    var p := CoverOf(lvl.Keys, c);
    NodeThere(lvl, t.leaves, p, c);
    SelfCovered(lvl.Keys, p);
    TwoChildren(lvl, t.leaves, p, p, c);
  }

  lemma HeadsAreLeaves(t: Tree)
    requires t.Valid() && t.Built()
    ensures LevelAt(t.nodes, 1).Keys <= t.leaves.Keys
  {
    hide LevelOK, Tower, Filled, Covers;
    var lvl := LevelAt(t.nodes, 1);
    TowerBase(t.nodes, 1, t.top, t.leaves);
    forall k | k in lvl ensures k in t.leaves {
      assert HeadOK(k, lvl[k]);
      NodeMirrors(lvl, t.leaves, k);
      assert k in Kids(lvl[k]);
    }
  }

  /** All leaves but the empty key's have the value one. */
  ghost predicate Ones(leaves: map<Key, int>) {
    [] in leaves && forall k | k in leaves && k != [] :: leaves[k] == 1
  }

  function OneByte(j: nat): Key
    requires j < 256
  {
    [j as Byte]
  }

  /** Six keys are set in a new tree with three children to a node. */
  method SevenOnes() returns (t: Tree)
    ensures fresh(t) && t.m == 3 && t.Valid() && t.Built() && Ones(t.leaves) && |t.leaves| == 7
  {
    hide Tower, Filled, Headed, EmptyFrom;
    NothingStored();
    t := new Tree(3, map[], map[], 0);
    assert t.leaves == map[[] := 0];
    for i: int := 1 to 7
      invariant t.m == 3 && t.Valid() && t.Built() && Ones(t.leaves) && |t.leaves| == i
      invariant forall j | i <= j < 7 :: OneByte(j) !in t.leaves
    {
      t.Set(OneByte(i), 1);
    }
  }

  /** A run of sets and of removals that leaves the store without a well-formed tree, although every value but one is positive. */
  method ValueLost() returns (t: Tree)
    ensures fresh(t) && forall l: nat :: !t.ValidAt(l)
  {
    hide Tower, Filled, Headed, EmptyFrom, LevelOK, Covers, Survives, LeftOf, RightOf, Rank;
    t := SevenOnes();
    SevenLeaves(t);
    HeadsAreLeaves(t);
    TowerBase(t.nodes, 1, t.top, t.leaves);
    var keys := LevelAt(t.nodes, 1).Keys;
    while t.leaves.Keys != keys
      invariant t.m == 3 && t.Valid() && t.top == 2 && Ones(t.leaves)
      invariant LevelAt(t.nodes, 1).Keys == keys && keys <= t.leaves.Keys
      decreases |t.leaves|
    {
      var c :| c in t.leaves && c !in keys;
      BesideHead(t, c);
      ghost var before := t.leaves;
      t.Remove(c);
      Fewer(before, c);
    }
    var second := Tree.LeastAbove(keys, []);
    ThreeKeys(keys, second);
    var third := Tree.LeastAbove(keys, second.value);
    SecondOfThree(keys, second, third);
    LossyRemoval(t, [], second.value, third.value);
    t.Remove(second.value);
  }

  lemma Fewer(leaves: map<Key, int>, c: Key)
    requires c in leaves
    ensures |leaves - {c}| < |leaves|
  {
    assert (leaves - {c}).Keys == leaves.Keys - {c};
    assert |leaves.Keys - {c}| < |leaves.Keys|;
  }

  lemma AtMostTwo(keys: set<Key>, a: Key, b: Key)
    requires forall x | x in keys :: x == a || x == b
    ensures |keys| <= 2
  {
    SubsetCount(keys, {a, b});
  }

  lemma ThreeKeys(keys: set<Key>, second: Option<Key>)
    requires [] in keys && |keys| >= 3
    requires second.None? ==> forall x | x in keys :: Rank(x) <= Rank([])
    requires second.Some? ==> RightOf(keys, second.value, [])
    ensures second.Some? && second.value in keys
  {
    if second.None? {
      AtMostTwo(keys, [], []);
      assert false;
    }
  }

  lemma SecondOfThree(keys: set<Key>, second: Option<Key>, third: Option<Key>)
    requires [] in keys && |keys| >= 3 && second.Some? && RightOf(keys, second.value, [])
    requires third.None? ==> forall x | x in keys :: Rank(x) <= Rank(second.value)
    requires third.Some? ==> RightOf(keys, third.value, second.value)
    ensures third.Some? && Neighbours(keys, [], second.value, third.value)
    ensures third.value in keys && third.value != []
  {
    if third.None? {
      forall x | x in keys ensures x == [] || x == second.value {
        assert Rank(x) == Rank([]) || Rank(x) == Rank(second.value);
      }
      AtMostTwo(keys, [], second.value);
      assert false;
    }
    forall x | x in keys && Rank(x) < Rank(second.value) ensures Rank(x) <= Rank([]) {}
  }
}
