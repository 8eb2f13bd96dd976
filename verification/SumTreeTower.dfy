/**
 The levels of the sum tree stacked on each other, and what a change at one level does to the
 whole stack.
 */
module SumTreeTower {
  import opened KeyOrder
  import opened SumTreeLevel

  /** The branch nodes of the store: the ordered key (level, key), read level by level. */
  type Nodes = map<nat, Level>

  function LevelAt(nodes: Nodes, l: nat): Level {
    if l in nodes then nodes[l] else map[]
  }

  function Put(nodes: Nodes, l: nat, k: Key, cs: seq<Child>): Nodes {
    nodes[l := LevelAt(nodes, l)[k := cs]]
  }

  function Drop(nodes: Nodes, l: nat, k: Key): Nodes {
    nodes[l := LevelAt(nodes, l) - {k}]
  }

  ghost predicate EmptyFrom(nodes: Nodes, l: nat) {
    forall j | j >= l :: LevelAt(nodes, j) == map[]
  }

  /**
   The levels from `l` up to `top` stand correctly on `items`: each level lists exactly the
   items of the level below, with their sums, and above `top` there is one node at most.
   */
  ghost predicate Tower(nodes: Nodes, l: nat, top: nat, items: map<Key, int>)
    decreases top + 1 - l
  {
    if l > top then
      items.Keys == {[]} && EmptyFrom(nodes, l)
    else
      && LevelOK(LevelAt(nodes, l), items)
      && Tower(nodes, l + 1, top, Sums(LevelAt(nodes, l)))
  }

  ghost predicate SameFrom(a: Nodes, b: Nodes, l: nat) {
    forall j | j >= l :: LevelAt(a, j) == LevelAt(b, j)
  }

  ghost predicate SameBelow(a: Nodes, b: Nodes, l: nat) {
    forall j | 0 <= j < l :: LevelAt(a, j) == LevelAt(b, j)
  }

  lemma SameBelowTrans(a: Nodes, b: Nodes, c: Nodes, l: nat)
    requires SameBelow(a, b, l) && SameBelow(b, c, l)
    ensures SameBelow(a, c, l)
  {
    forall j | 0 <= j < l ensures LevelAt(a, j) == LevelAt(c, j) {
      assert LevelAt(a, j) == LevelAt(b, j);
    }
  }

  lemma {:induction false} TowerFrame(a: Nodes, b: Nodes, l: nat, top: nat, items: map<Key, int>)
    requires Tower(a, l, top, items)
    requires SameFrom(a, b, l)
    ensures Tower(b, l, top, items)
    decreases top + 1 - l
  {
    if l <= top {
      TowerFrame(a, b, l + 1, top, Sums(LevelAt(a, l)));
    }
  }

  /** The level that a tower stands on is either above the top or has its leftmost node. */
  lemma TowerBase(nodes: Nodes, l: nat, top: nat, items: map<Key, int>)
    requires Tower(nodes, l, top, items)
    ensures if l > top then LevelAt(nodes, l) == map[] && items.Keys == {[]} && EmptyFrom(nodes, l) else
              && [] in LevelAt(nodes, l)
              && LevelOK(LevelAt(nodes, l), items)
              && Tower(nodes, l + 1, top, Sums(LevelAt(nodes, l)))
  {
  }

  /** The items that level `l + 1` stands on. */
  ghost function ItemsAt(nodes: Nodes, leaves: map<Key, int>, l: nat): map<Key, int> {
    if l == 0 then leaves else Sums(LevelAt(nodes, l))
  }

  lemma {:induction false} TowerLevel(nodes: Nodes, l: nat, top: nat, leaves: map<Key, int>, j: nat)
    requires 1 <= l <= j <= top && Tower(nodes, l, top, ItemsAt(nodes, leaves, l - 1))
    ensures LevelOK(LevelAt(nodes, j), ItemsAt(nodes, leaves, j - 1))
    decreases j - l
  {
    hide LevelOK;
    if l < j {
      TowerLevel(nodes, l + 1, top, leaves, j);
    }
  }

  lemma TowerOn(nodes: Nodes, l: nat, top: nat, items: map<Key, int>)
    requires l <= top && LevelOK(LevelAt(nodes, l), items)
    requires Tower(nodes, l + 1, top, Sums(LevelAt(nodes, l)))
    ensures Tower(nodes, l, top, items)
  {
  }

  lemma EmptyTower(nodes: Nodes, l: nat, top: nat, items: map<Key, int>)
    requires l > top && items.Keys == {[]} && EmptyFrom(nodes, l)
    ensures Tower(nodes, l, top, items)
  {
  }

  /** Above the top, the one remaining item may carry any sum. */
  lemma TowerAbove(nodes: Nodes, l: nat, top: nat, items: map<Key, int>, items': map<Key, int>)
    requires l > top && Tower(nodes, l, top, items)
    requires items'.Keys == items.Keys
    ensures Tower(nodes, l, top, items')
  {
  }

  /** Above the top there is nothing, whatever level one starts from. */
  lemma {:induction false} TowerTop(nodes: Nodes, l: nat, top: nat, items: map<Key, int>)
    requires l <= top + 1 && Tower(nodes, l, top, items)
    ensures EmptyFrom(nodes, top + 1)
    ensures l <= top ==> LevelAt(nodes, top).Keys == {[]}
    decreases top + 1 - l
  {
    if l <= top {
      TowerTop(nodes, l + 1, top, Sums(LevelAt(nodes, l)));
    }
  }

  lemma PutSame(nodes: Nodes, l: nat, k: Key, cs: seq<Child>)
    ensures SameFrom(nodes, Put(nodes, l, k, cs), l + 1)
    ensures SameBelow(nodes, Put(nodes, l, k, cs), l)
    ensures LevelAt(Put(nodes, l, k, cs), l) == LevelAt(nodes, l)[k := cs]
  {
  }

  /** The levels from `l + 1` up do not notice a change of level `l`. */
  lemma PutFrame(nodes: Nodes, l: nat, k: Key, cs: seq<Child>, top: nat, items: map<Key, int>)
    requires Tower(nodes, l + 1, top, items)
    ensures Tower(Put(nodes, l, k, cs), l + 1, top, items)
    ensures SameBelow(nodes, Put(nodes, l, k, cs), l)
    ensures LevelAt(Put(nodes, l, k, cs), l) == LevelAt(nodes, l)[k := cs]
    ensures LevelAt(Put(nodes, l, k, cs), l + 1) == LevelAt(nodes, l + 1)
  {
    PutSame(nodes, l, k, cs);
    TowerFrame(nodes, Put(nodes, l, k, cs), l + 1, top, items);
  }

  /** Putting a new node at level `l` under a tower that already expects its sum. */
  lemma PutUnder(nodes: Nodes, l: nat, top: nat, k: Key, cs: seq<Child>, items: map<Key, int>)
    requires l <= top
    requires LevelOK(LevelAt(nodes, l)[k := cs], items)
    requires Tower(nodes, l + 1, top, Sums(LevelAt(nodes, l))[k := Accumulate(cs)])
    ensures Tower(Put(nodes, l, k, cs), l, top, items)
    ensures SameBelow(nodes, Put(nodes, l, k, cs), l)
  {
    PutFrame(nodes, l, k, cs, top, Sums(LevelAt(nodes, l))[k := Accumulate(cs)]);
    SumsReplace(LevelAt(nodes, l), k, cs);
  }

  /** A new root above a level that has just split into two nodes. */
  lemma NewRootOK(lvl: Level, items: map<Key, int>, cs: seq<Child>)
    requires |cs| == 2 && cs[0].index == [] && cs[1].index != []
    requires items.Keys == {[], cs[1].index}
    requires items[[]] == cs[0].acc && items[cs[1].index] == cs[1].acc
    requires lvl == map[[] := cs]
    ensures LevelOK(lvl, items)
  {
    assert lvl.Keys == {[]};
    forall i | 0 <= i < |cs| ensures ChildOK(lvl.Keys, items, [], cs[i]) {}
    assert HasChild(cs, cs[0].index) && HasChild(cs, cs[1].index);
  }

  /** The first node of an empty tree. */
  lemma FirstNodeOK(lvl: Level, c: Child)
    requires lvl == map[[] := [c]]
    ensures LevelOK(lvl, map[c.index := c.acc])
  {
    assert lvl.Keys == {[]};
    assert HasChild([c], [c][0].index);
    forall i | 0 <= i < |[c]| ensures ChildOK(lvl.Keys, map[c.index := c.acc], [], [c][i]) {}
  }

  // ---- what the nodes look like, apart from their sums ----

  ghost predicate SameIndexes(a: seq<Child>, b: seq<Child>) {
    |a| == |b| && forall i | 0 <= i < |a| :: a[i].index == b[i].index
  }

  ghost predicate SameLevelShape(a: Level, b: Level) {
    a.Keys == b.Keys && forall k | k in a :: SameIndexes(a[k], b[k])
  }

  /** The two trees differ in cached sums only. */
  ghost predicate SameShape(a: Nodes, b: Nodes) {
    forall l: nat :: SameLevelShape(LevelAt(a, l), LevelAt(b, l))
  }

  ghost predicate HeadOK(k: Key, cs: seq<Child>) {
    cs != [] && cs[0].index == k
  }

  /** From level `h` up, the first child of a node carries the node's own key. */
  ghost predicate Headed(nodes: Nodes, h: nat) {
    forall l, k | l >= h && k in LevelAt(nodes, l) :: HeadOK(k, LevelAt(nodes, l)[k])
  }

  /** The number of children of a node at level `l` that `Set` alone can produce. */
  predicate FillOK(m: nat, l: nat, top: nat, n: nat) {
    && (n <= m || n <= 2)
    && (l < top ==> n >= m - m / 2)
    && (l == top && l >= 2 ==> n >= 2)
  }

  ghost predicate Filled(nodes: Nodes, m: nat, top: nat) {
    forall l, k | l >= 1 && k in LevelAt(nodes, l) :: FillOK(m, l, top, |LevelAt(nodes, l)[k]|)
  }

  lemma PutShape(nodes: Nodes, l: nat, k: Key, cs: seq<Child>)
    requires k in LevelAt(nodes, l) && SameIndexes(LevelAt(nodes, l)[k], cs)
    ensures SameShape(nodes, Put(nodes, l, k, cs))
  {
  }

  lemma ShapeRefl(nodes: Nodes)
    ensures SameShape(nodes, nodes)
  {
  }

  lemma ShapeTrans(a: Nodes, b: Nodes, c: Nodes)
    requires SameShape(a, b) && SameShape(b, c)
    ensures SameShape(a, c)
  {
    forall l: nat ensures SameLevelShape(LevelAt(a, l), LevelAt(c, l)) {
      assert SameLevelShape(LevelAt(a, l), LevelAt(b, l)) && SameLevelShape(LevelAt(b, l), LevelAt(c, l));
    }
  }

  lemma ShapeKeeps(a: Nodes, b: Nodes, h: nat, m: nat, top: nat)
    requires SameShape(a, b)
    ensures Headed(a, h) ==> Headed(b, h)
    ensures Filled(a, m, top) ==> Filled(b, m, top)
  {
    forall l, k | k in LevelAt(b, l)
      ensures k in LevelAt(a, l) && SameIndexes(LevelAt(a, l)[k], LevelAt(b, l)[k])
    {
      assert SameLevelShape(LevelAt(a, l), LevelAt(b, l));
    }
  }

  lemma PutKeeps(nodes: Nodes, l: nat, k: Key, cs: seq<Child>, h: nat, m: nat, top: nat)
    ensures Headed(nodes, h) && (l >= h ==> HeadOK(k, cs)) ==> Headed(Put(nodes, l, k, cs), h)
    ensures Filled(nodes, m, top) && (l >= 1 ==> FillOK(m, l, top, |cs|)) ==> Filled(Put(nodes, l, k, cs), m, top)
  {
    var nodes' := Put(nodes, l, k, cs);
    forall l', k' | k' in LevelAt(nodes', l') && !(l' == l && k' == k)
      ensures k' in LevelAt(nodes, l') && LevelAt(nodes', l')[k'] == LevelAt(nodes, l')[k']
    {
    }
  }

  /** Headed nodes: whatever key a split produces, its parent is the parent of the node that split. */
  lemma SplitHasSameParent(upper: Level, lvl: Level, p: Key, k: Key, rk: Key)
    requires LevelOK(upper, Sums(lvl))
    requires forall k' | k' in upper :: HeadOK(k', upper[k'])
    requires Covers(upper.Keys, p, k)
    requires Covers(lvl.Keys, k, rk)
    ensures Covers(upper.Keys, p, rk)
  {
    forall k' | k' in upper.Keys && Rank(k') <= Rank(rk)
      ensures Rank(k') <= Rank(p)
    {
      assert NodeOK(upper.Keys, Sums(lvl), k', upper[k']);
      assert ChildOK(upper.Keys, Sums(lvl), k', upper[k'][0]);
      assert k' in lvl.Keys;
    }
  }

  /** The shape of a tree that a run of operations keeps: headed from level `h`, and filled. */
  datatype Shape = Shape(head1: bool, head2: bool, filled: bool)

  ghost function ShapeOf(nodes: Nodes, m: nat, top: nat): Shape {
    Shape(Headed(nodes, 1), Headed(nodes, 2), Filled(nodes, m, top))
  }

  /** Everything that holds of shape `a` holds of shape `b`. */
  predicate Kept(a: Shape, b: Shape) {
    (a.head1 ==> b.head1) && (a.head2 ==> b.head2) && (a.filled ==> b.filled)
  }

  /** A node that fits at level `l` of a tree of the given shape. */
  ghost predicate Fits(sh: Shape, m: nat, l: nat, top: nat, k: Key, cs: seq<Child>) {
    && (sh.head1 && l >= 1 ==> HeadOK(k, cs))
    && (sh.head2 && l >= 2 ==> HeadOK(k, cs))
    && (sh.filled && l >= 1 ==> FillOK(m, l, top, |cs|))
  }

  lemma PutFits(nodes: Nodes, m: nat, top: nat, sh: Shape, l: nat, k: Key, cs: seq<Child>)
    requires Kept(sh, ShapeOf(nodes, m, top))
    requires Fits(sh, m, l, top, k, cs)
    ensures Kept(sh, ShapeOf(Put(nodes, l, k, cs), m, top))
  {
    hide Headed, Filled, HeadOK, FillOK;
    PutKeeps(nodes, l, k, cs, 1, m, top);
    PutKeeps(nodes, l, k, cs, 2, m, top);
  }

  lemma SameShapeKept(a: Nodes, b: Nodes, m: nat, top: nat)
    requires SameShape(a, b)
    ensures Kept(ShapeOf(a, m, top), ShapeOf(b, m, top))
  {
    hide Headed, Filled, SameShape;
    ShapeKeeps(a, b, 1, m, top);
    ShapeKeeps(a, b, 2, m, top);
  }

  lemma FitsAt(nodes: Nodes, m: nat, top: nat, l: nat, k: Key)
    requires k in LevelAt(nodes, l)
    ensures Fits(ShapeOf(nodes, m, top), m, l, top, k, LevelAt(nodes, l)[k])
  {
  }

  /** A node that fits but for one child too many. */
  ghost predicate Overfits(sh: Shape, m: nat, l: nat, k: Key, cs: seq<Child>) {
    && |cs| >= 2
    && (sh.head1 && l >= 1 ==> HeadOK(k, cs))
    && (sh.head2 && l >= 2 ==> HeadOK(k, cs))
    && (sh.filled && l >= 1 ==> |cs| <= m + 1 || |cs| <= 3)
  }

  /** Inserting a covered key that is not listed yet leaves the head in place. */
  lemma InsertFits(sh: Shape, m: nat, l: nat, top: nat, keys: set<Key>, k: Key, cs: seq<Child>, idx: nat, c: Child)
    requires cs != [] && Fits(sh, m, l, top, k, cs)
    requires Covers(keys, k, c.index) && FoundAt(cs, c.index, idx, false)
    ensures Overfits(sh, m, l, k, Insert(cs, idx, c))
    ensures |cs| < m ==> Fits(sh, m, l, top, k, Insert(cs, idx, c))
  {
  }

  lemma SplitFits(sh: Shape, m: nat, l: nat, top: nat, k: Key, cs: seq<Child>, n: nat)
    requires Overfits(sh, m, l, k, cs) && |cs| > m && n == m / 2 + 1 && l < top
    ensures n < |cs|
    ensures Fits(sh, m, l, top, k, cs[..n])
    ensures Fits(sh, m, l, top, cs[n].index, cs[n..])
  {
  }

  /** When the root splits, every other node was below the root already. */
  lemma TopUp(nodes: Nodes, m: nat, top: nat, sh: Shape, left: seq<Child>)
    requires Kept(sh, ShapeOf(nodes, m, top))
    requires LevelAt(nodes, top).Keys == {[]} && EmptyFrom(nodes, top + 1)
    requires Fits(sh, m, top, top + 1, [], left)
    ensures Kept(sh, ShapeOf(Put(nodes, top, [], left), m, top + 1))
  {
    hide Headed, HeadOK;
    PutKeeps(nodes, top, [], left, 1, m, top);
    PutKeeps(nodes, top, [], left, 2, m, top);
    var nodes' := Put(nodes, top, [], left);
    if sh.filled {
      forall l: nat, k | l >= 1 && k in LevelAt(nodes', l) ensures FillOK(m, l, top + 1, |LevelAt(nodes', l)[k]|) {
        assert l > top ==> LevelAt(nodes, l) == map[];
        assert l == top ==> LevelAt(nodes', l) == map[[] := left];
        assert l < top ==> LevelAt(nodes', l) == LevelAt(nodes, l);
      }
    }
  }

  lemma PutSwap(nodes: Nodes, l: nat, rk: Key, left: seq<Child>, right: seq<Child>, root: seq<Child>)
    requires LevelAt(nodes, l).Keys == {[]} && rk != []
    ensures
      var nodes' := Put(Put(Put(nodes, l, rk, right), l + 1, [], root), l, [], left);
      && LevelAt(nodes', l) == map[rk := right, [] := left]
      && nodes' == Put(Put(Put(nodes, l, [], left), l, rk, right), l + 1, [], root)
  {
    var lvl := LevelAt(nodes, l);
    TwoPuts(lvl, rk, left, right);
    var x := nodes[l := lvl[rk := right]];
    var y := x[l + 1 := LevelAt(nodes, l + 1)[[] := root]];
    assert Put(Put(nodes, l, rk, right), l + 1, [], root) == y;
    assert LevelAt(y, l) == lvl[rk := right];
    TwoLevels(nodes, l, lvl[rk := right], lvl[[] := left], lvl[rk := right][[] := left], LevelAt(nodes, l + 1)[[] := root]);
  }

  lemma TwoPuts(lvl: Level, rk: Key, left: seq<Child>, right: seq<Child>)
    requires lvl.Keys == {[]} && rk != []
    ensures lvl[rk := right][[] := left] == map[rk := right, [] := left]
    ensures lvl[rk := right][[] := left] == lvl[[] := left][rk := right]
  {
  }

  lemma TwoLevels(nodes: Nodes, l: nat, a: Level, b: Level, c: Level, up: Level)
    ensures nodes[l := a][l + 1 := up][l := c] == nodes[l := b][l := c][l + 1 := up]
  {
  }

  /** The shape of the tree after its root has been split. */
  lemma RootSplitFits(nodes: Nodes, m: nat, top: nat, sh: Shape, rk: Key, left: seq<Child>, right: seq<Child>, root: seq<Child>)
    requires Kept(sh, ShapeOf(nodes, m, top))
    requires LevelAt(nodes, top).Keys == {[]} && EmptyFrom(nodes, top + 1) && rk != []
    requires Fits(sh, m, top, top + 1, [], left)
    requires Fits(sh, m, top, top + 1, rk, right)
    requires |root| == 2 && root[0].index == []
    ensures
      var nodes' := Put(Put(Put(nodes, top, rk, right), top + 1, [], root), top, [], left);
      Kept(sh, ShapeOf(nodes', m, top + 1))
  {
    hide ShapeOf, Put, EmptyFrom;
    TopUp(nodes, m, top, sh, left);
    var a := Put(nodes, top, [], left);
    PutFits(a, m, top + 1, sh, top, rk, right);
    PutFits(Put(a, top, rk, right), m, top + 1, sh, top + 1, [], root);
    PutSwap(nodes, top, rk, left, right, root);
  }

  /** A root that has just been split, under its new parent. */
  lemma RootSplitOK(nodes: Nodes, l: nat, rk: Key, left: seq<Child>, right: seq<Child>, root: seq<Child>, items: map<Key, int>)
    requires LevelAt(nodes, l).Keys == {[]} && EmptyFrom(nodes, l + 1) && rk != []
    requires LevelOK(LevelAt(nodes, l)[rk := right][[] := left], items)
    requires root == [Child([], Accumulate(left)), Child(rk, Accumulate(right))]
    ensures
      var nodes' := Put(Put(Put(nodes, l, rk, right), l + 1, [], root), l, [], left);
      && Tower(nodes', l, l + 1, items)
      && SameBelow(nodes, nodes', l)
  {
    hide LevelOK, Accumulate;
    var nodes' := Put(Put(Put(nodes, l, rk, right), l + 1, [], root), l, [], left);
    var lvl, upper := LevelAt(nodes', l), LevelAt(nodes', l + 1);
    assert lvl == LevelAt(nodes, l)[rk := right][[] := left];
    assert LevelAt(nodes, l + 1) == map[];
    assert upper == map[[] := root];
    assert Sums(lvl)[[]] == Accumulate(left) && Sums(lvl)[rk] == Accumulate(right);
    NewRootOK(upper, Sums(lvl), root);
    forall j | j >= l + 2 ensures LevelAt(nodes', j) == map[] {
      assert LevelAt(nodes, j) == map[];
    }
    assert Sums(upper).Keys == {[]};
    assert Tower(nodes', l + 2, l + 1, Sums(upper));
  }

  /** An inner node that has just been split, under levels that have already been told. */
  lemma InnerSplitOK(nodes: Nodes, nodes': Nodes, l: nat, top: nat, k: Key, rk: Key,
                     left: seq<Child>, right: seq<Child>, items: map<Key, int>)
    requires l <= top && rk !in LevelAt(nodes, l)
    requires LevelOK(LevelAt(nodes, l)[rk := right][k := left], items)
    requires SameBelow(Put(nodes, l, rk, right), nodes', l + 1)
    requires Tower(nodes', l + 1, top, Sums(LevelAt(nodes, l))[rk := Accumulate(right)][k := Accumulate(left)])
    ensures Tower(Put(nodes', l, k, left), l, top, items)
    ensures SameBelow(nodes, Put(nodes', l, k, left), l)
  {
    hide LevelOK, Accumulate, Tower;
    var lvl := LevelAt(nodes, l);
    PutSame(nodes, l, rk, right);
    assert LevelAt(nodes', l) == lvl[rk := right];
    SumsReplace(lvl, rk, right);
    PutUnder(nodes', l, top, k, left, items);
  }

  lemma ParentOfSplit(nodes: Nodes, m: nat, l: nat, top: nat, sh: Shape, p: Key, k: Key, rk: Key)
    requires 1 <= l < top && Tower(nodes, l + 1, top, Sums(LevelAt(nodes, l)))
    requires sh.head2 && Kept(sh, ShapeOf(nodes, m, top))
    requires Covers(LevelAt(nodes, l + 1).Keys, p, k)
    requires Covers(LevelAt(nodes, l).Keys, k, rk)
    ensures Covers(LevelAt(nodes, l + 1).Keys, p, rk)
  {
    hide Covers, LevelOK, HeadOK;
    var upper := LevelAt(nodes, l + 1);
    forall k' | k' in upper ensures HeadOK(k', upper[k']) {}
    SplitHasSameParent(upper, LevelAt(nodes, l), p, k, rk);
  }

  lemma EmptyShape(nodes: Nodes, m: nat)
    requires EmptyFrom(nodes, 1)
    ensures Headed(nodes, 1) && Headed(nodes, 2) && Filled(nodes, m, 0)
  {
  }

  /** The very first node, at level 1. */
  lemma FirstNode(nodes: Nodes, m: nat, c: Child)
    requires EmptyFrom(nodes, 1)
    ensures
      var nodes' := Put(nodes, 1, [], [c]);
      && Tower(nodes', 1, 1, map[c.index := c.acc])
      && Kept(Shape(c.index == [], true, true), ShapeOf(nodes', m, 1))
      && SameBelow(nodes, nodes', 1)
  {
    var nodes' := Put(nodes, 1, [], [c]);
    PutSame(nodes, 1, [], [c]);
    forall l | l >= 2 ensures LevelAt(nodes', l) == map[] {}
    assert LevelAt(nodes, 1) == map[];
    assert LevelAt(nodes', 1) == map[[] := [c]];
    FirstNodeOK(LevelAt(nodes', 1), c);
    assert Sums(LevelAt(nodes', 1)).Keys == {[]};
    assert Tower(nodes', 2, 1, Sums(LevelAt(nodes', 1)));
  }

  lemma DeleteKeepsHead(nodes: Nodes, l: nat, k: Key, idx: nat)
    requires k in LevelAt(nodes, l) && idx < |LevelAt(nodes, l)[k]| && |LevelAt(nodes, l)[k]| > 1
    ensures Headed(nodes, 2) && (l >= 2 ==> LevelAt(nodes, l)[k][idx].index != k) ==>
            Headed(Put(nodes, l, k, Delete(LevelAt(nodes, l)[k], idx)), 2)
  {
    hide Headed, Put, Filled;
    var cs := LevelAt(nodes, l)[k];
    if Headed(nodes, 2) && (l >= 2 ==> cs[idx].index != k) {
      if l >= 2 {
        FitsAt(nodes, 0, 0, l, k);
        assert Delete(cs, idx)[0] == cs[0];
      }
      PutKeeps(nodes, l, k, Delete(cs, idx), 2, 0, 0);
    }
  }
}
