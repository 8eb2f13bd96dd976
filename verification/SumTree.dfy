/**
 The sum tree: a B+ tree over an ordered key-value store in which every branch entry caches the
 sum of the leaves below it.
 */
module SumTree {
  import opened Options
  import opened KeyOrder
  import opened MapSum
  import opened SumTreeLevel
  import opened SumTreeTower
  import opened SumTreeQuery
  import opened SumTreeRemove
  import opened SumTreePull

  /** The sums of the leaves below, at and above a key. */
  datatype Split = Split(left: int, exact: int, right: int)

  /** The updates of the interface. */
  datatype Update =
    | Set(key: Key, acc: int) | Increase(key: Key, amt: int) | Decrease(key: Key, amt: int) | Remove(key: Key)

  ghost function FlatStep(leaves: map<Key, int>, u: Update): map<Key, int> {
    match u
    case Set(key, acc) => leaves[key := acc]
    case Increase(key, amt) => leaves[key := ValueAt(leaves, key) + amt]
    case Decrease(key, amt) => leaves[key := ValueAt(leaves, key) - amt]
    case Remove(key) => leaves - {key}
  }

  /** What a run of updates does to the flat map. */
  ghost function FlatRun(leaves: map<Key, int>, run: seq<Update>): map<Key, int> {
    if run == [] then leaves else FlatStep(FlatRun(leaves, run[..|run| - 1]), run[|run| - 1])
  }

  lemma FlatRunNone(leaves: map<Key, int>)
    ensures FlatRun(leaves, []) == leaves
  {
  }

  lemma FlatRunNext(leaves: map<Key, int>, run: seq<Update>, i: nat)
    requires i < |run|
    ensures FlatRun(leaves, run[..i + 1]) == FlatStep(FlatRun(leaves, run[..i]), run[i])
  {
    hide FlatStep;
    assert run[..i + 1][..i] == run[..i];
  }

  class Tree {
    /** Branching factor. */
    const m: nat
    /** The store at level 0: the flat map that the tree summarizes. */
    var leaves: map<Key, int>
    /** The store at levels 1 and up. */
    var nodes: Nodes
    /** The level of the root; 0 while the store is empty. */
    ghost var top: nat

    ghost predicate Valid()
      reads this
    {
      ValidAt(top)
    }

    /** The store holds a well-formed tree over `leaves` whose root is at level `t`. */
    ghost predicate ValidAt(t: nat)
      reads this
    {
      if t == 0 then leaves == map[] && EmptyFrom(nodes, 1)
      else Tower(nodes, 1, t, leaves) && Headed(nodes, 2)
    }

    /** The tree that `Set` alone builds: headed at every level and filled. */
    ghost predicate Built()
      reads this
    {
      top >= 1 && Headed(nodes, 1) && Filled(nodes, m, top)
    }

    predicate Exists(level: nat, key: Key)
      reads this
    {
      key in LevelAt(nodes, level)
    }

    /** `find`: the first position whose key is not below `key`. */
    static method Find(cs: seq<Child>, key: Key) returns (idx: nat, match_: bool)
      ensures FoundAt(cs, key, idx, match_)
    {
      for i := 0 to |cs|
        invariant forall j | 0 <= j < i :: Rank(cs[j].index) < Rank(key)
      {
        if cs[i].index == key {
          return i, true;
        }
        if Compare(cs[i].index, key) > 0 {
          return i, false;
        }
      }
      return |cs|, false;
    }

    static method Sum(cs: seq<Child>) returns (res: int)
      ensures res == Accumulate(cs)
    {
      res := 0;
      for i := 0 to |cs|
        invariant res == Accumulate(cs[..i])
      {
        res := res + cs[i].acc;
        assert cs[..i + 1][..i] == cs[..i];
      }
      assert cs[..|cs|] == cs;
    }

    /** The reverse iterator of the store over one level, from just below `end`. */
    static method GreatestBelow(keys: set<Key>, end: Key) returns (found: Option<Key>)
      ensures found.None? ==> forall k | k in keys :: Rank(end) <= Rank(k)
      ensures found.Some? ==> found.value in keys && Rank(found.value) < Rank(end)
      ensures found.Some? ==> forall k | k in keys && Rank(k) < Rank(end) :: Rank(k) <= Rank(found.value)
    {
      found := None;
      var rest := keys;
      while rest != {}
        invariant rest <= keys
        invariant found.None? ==> forall k | k in keys - rest :: Rank(end) <= Rank(k)
        invariant found.Some? ==> found.value in keys && Rank(found.value) < Rank(end)
        invariant found.Some? ==> forall k | k in keys - rest && Rank(k) < Rank(end) :: Rank(k) <= Rank(found.value)
        decreases rest
      {
        var k :| k in rest;
        rest := rest - {k};
        if Compare(k, end) < 0 && (found.None? || Compare(found.value, k) < 0) {
          found := Some(k);
        }
      }
    }

    /** `parent`: the node one level up that covers `key`, found by ordered lookup alone. */
    method Parent(level: nat, key: Key) returns (p: Key)
      requires LevelAt(nodes, level + 1) == map[] || [] in LevelAt(nodes, level + 1)
      ensures LevelAt(nodes, level + 1) == map[] ==> p == []
      ensures LevelAt(nodes, level + 1) != map[] ==> Covers(LevelAt(nodes, level + 1).Keys, p, key)
    {
      if Exists(level + 1, key) {
        return key;
      }
      var left := GreatestBelow(LevelAt(nodes, level + 1).Keys, key);
      if left.Some? {
        return left.value;
      }
      return [];
    }

    /** `updateAccumulation`: writes the sum of one item and repairs every sum above it. */
    method UpdateAccumulation(level: nat, key: Key, c: Child, ghost items: map<Key, int>)
      requires level <= top + 1 && Tower(nodes, level, top, items)
      requires c.index in items
      requires level <= top ==> Covers(LevelAt(nodes, level).Keys, key, c.index)
      modifies `nodes
      ensures Tower(nodes, level, top, items[c.index := c.acc])
      ensures SameBelow(old(nodes), nodes, level)
      ensures SameShape(old(nodes), nodes)
      decreases top + 1 - level
    {
      hide LevelOK, Covers, Accumulate, SameShape, Tower;
      TowerBase(nodes, level, top, items);
      if !Exists(level, key) {
        NotCovered(LevelAt(nodes, level).Keys, key, c.index);
        ShapeRefl(nodes);
        TowerAbove(nodes, level, top, items, items[c.index := c.acc]);
        return;
      }
      ghost var lvl := LevelAt(nodes, level);
      var node := nodes[level][key];
      var idx, match_ := Find(node, c.index);
      FindInLevel(lvl, items, key, c.index, idx, match_);
      if !match_ {
        assert false; // a child that its parent does not list
      }
      SetAccOK(lvl, items, key, idx, c.acc);
      node := node[idx := Child(node[idx].index, c.acc)];
      PutFrame(nodes, level, key, node, top, Sums(lvl));
      PutShape(nodes, level, key, node);
      nodes := Put(nodes, level, key, node);
      label Written:
      TowerBase(nodes, level + 1, top, Sums(lvl));
      var p := Parent(level, key);
      var acc := Sum(node);
      UpdateAccumulation(level + 1, p, Child(key, acc), Sums(lvl));
      SumsReplace(lvl, key, node);
      TowerOn(nodes, level, top, items[c.index := c.acc]);
      ShapeTrans(old(nodes), old@Written(nodes), nodes);
    }

    /** `push`: adds one item to the node that covers it, splitting nodes on the way up. */
    method Push(level: nat, key: Key, c: Child, ghost items: map<Key, int>, ghost sh: Shape)
      requires if top == 0 then level == 1 && key == [] && items == map[] && EmptyFrom(nodes, 1)
               else 1 <= level <= top && Tower(nodes, level, top, items) && Covers(LevelAt(nodes, level).Keys, key, c.index)
      requires sh.head2 && Kept(sh, ShapeOf(nodes, m, top))
      requires top == 0 && sh.head1 ==> c.index == []
      modifies `nodes, `top
      ensures old(top) <= top <= old(top) + 1 && level <= top
      ensures Tower(nodes, level, top, items[c.index := c.acc])
      ensures SameBelow(old(nodes), nodes, level)
      ensures Kept(sh, ShapeOf(nodes, m, top))
      decreases top - level
    {
      hide LevelOK, Covers, Accumulate, SameShape, ShapeOf, Tower, Put, Rank, Fits, Overfits;
      ghost var lvl := LevelAt(nodes, level);
      if !Exists(level, key) {
        NotCovered(lvl.Keys, key, c.index);
        FirstNode(nodes, m, c);
        nodes := Put(nodes, level, key, [c]);
        top := 1;
        return;
      }
      TowerBase(nodes, level, top, items);
      TowerBase(nodes, level + 1, top, Sums(lvl));
      NodeThere(lvl, items, key, c.index);
      var cs := nodes[level][key];
      var idx, match_ := Find(cs, c.index);
      FindInLevel(lvl, items, key, c.index, idx, match_);
      if match_ {
        UpdateAccumulation(level, key, c, items);
        SameShapeKept(old(nodes), nodes, m, top);
        return;
      }
      FitsAt(nodes, m, top, level, key);
      InsertOK(lvl, items, key, idx, c);
      InsertFits(sh, m, level, top, lvl.Keys, key, cs, idx, c);
      cs := Insert(cs, idx, c);
      var p := Parent(level, key);
      if |cs| > m {
        PushSplit(level, key, cs, p, items[c.index := c.acc], sh);
      } else {
        var acc := Sum(cs);
        UpdateAccumulation(level + 1, p, Child(key, acc), Sums(lvl));
        SameShapeKept(old(nodes), nodes, m, top);
        PutUnder(nodes, level, top, key, cs, items[c.index := c.acc]);
        PutFits(nodes, m, top, sh, level, key, cs);
        nodes := Put(nodes, level, key, cs);
      }
    }

    /** The overflow arm of `push`: the node keeps the first half of `cs`, a new node takes the rest. */
    method PushSplit(level: nat, key: Key, cs: seq<Child>, p: Key, ghost items: map<Key, int>, ghost sh: Shape)
      requires 1 <= level <= top && Tower(nodes, level + 1, top, Sums(LevelAt(nodes, level)))
      requires key in LevelAt(nodes, level)
      requires LevelOK(LevelAt(nodes, level)[key := cs], items)
      requires |cs| > m && Overfits(sh, m, level, key, cs)
      requires if level < top then Covers(LevelAt(nodes, level + 1).Keys, p, key) else p == []
      requires sh.head2 && Kept(sh, ShapeOf(nodes, m, top))
      modifies `nodes, `top
      ensures old(top) <= top <= old(top) + 1
      ensures Tower(nodes, level, top, items)
      ensures SameBelow(old(nodes), nodes, level)
      ensures Kept(sh, ShapeOf(nodes, m, top))
      decreases top - level, 0
    {
      hide LevelOK, Covers, Accumulate, SameShape, ShapeOf, Fits, Overfits, EmptyFrom, SameBelow, Tower, Put, Rank;
      ghost var lvl := LevelAt(nodes, level);
      var split := m / 2 + 1;
      SplitFits(sh, m, level, top + 1, key, cs, split);
      var left, right := cs[..split], cs[split..];
      var rk := cs[split].index;
      SplitKey(lvl, items, key, cs, split);
      TowerBase(nodes, level + 1, top, Sums(lvl));
      PutFrame(nodes, level, rk, right, top, Sums(lvl));
      nodes := Put(nodes, level, rk, right);
      var leftAcc := Sum(left);
      var rightAcc := Sum(right);
      if !Exists(level + 1, p) {
        NotCovered(LevelAt(nodes, level + 1).Keys, p, key);
        assert level == top && key in Sums(lvl) && p == [];
        var root := [Child(key, leftAcc), Child(rk, rightAcc)];
        nodes := Put(nodes, level + 1, p, root);
        nodes := Put(nodes, level, key, left);
        RootSplitFits(old(nodes), m, top, sh, rk, left, right, root);
        RootSplitOK(old(nodes), level, rk, left, right, root, items);
        top := top + 1;
        return;
      }
      assert level < top;
      ParentOfSplit(old(nodes), m, level, top, sh, p, key, rk);
      SplitFits(sh, m, level, top, key, cs, split);
      PutFits(old(nodes), m, top, sh, level, rk, right);
      label Created:
      Push(level + 1, p, Child(rk, rightAcc), Sums(lvl), sh);
      label Pushed:
      ghost var sums := Sums(lvl)[rk := rightAcc];
      TowerBase(nodes, level + 1, top, sums);
      var p' := Parent(level, key); // the parent may have split as well
      UpdateAccumulation(level + 1, p', Child(key, leftAcc), sums);
      SameBelowTrans(old@Created(nodes), old@Pushed(nodes), nodes, level + 1);
      SameShapeKept(old@Pushed(nodes), nodes, m, top);
      SplitFits(sh, m, level, top, key, cs, split);
      PutFits(nodes, m, top, sh, level, key, left);
      InnerSplitOK(old(nodes), nodes, level, top, key, rk, left, right, items);
      nodes := Put(nodes, level, key, left);
    }

    // ---- the interface ----

    /** `Get`: absent keys count as zero. */
    method Get(key: Key) returns (v: int)
      ensures v == ValueAt(leaves, key)
    {
      v := if key in leaves then leaves[key] else 0;
    }

    /** `Set`: the flat map is updated at one key, and the tree follows. */
    method Set(key: Key, acc: int)
      requires Valid()
      modifies this
      ensures Valid() && top >= 1
      ensures leaves == old(leaves)[key := acc]
      ensures old(Built()) || (old(top) == 0 && key == []) ==> Built()
    {
      hide LevelOK, Covers, Headed, Filled;
      ghost var sh := ShapeOf(nodes, m, top);
      leaves := leaves[key := acc];
      if top == 0 {
        EmptyShape(nodes, m);
        sh := ShapeOf(nodes, m, top).(head1 := key == []);
      } else {
        TowerBase(nodes, 1, top, old(leaves));
      }
      var p := Parent(0, key);
      Push(1, p, Child(key, acc), old(leaves), sh);
    }

    method Increase(key: Key, amt: int)
      requires Valid()
      modifies this
      ensures Valid() && top >= 1
      ensures leaves == old(leaves)[key := ValueAt(old(leaves), key) + amt]
      ensures old(Built()) || (old(top) == 0 && key == []) ==> Built()
    {
      hide Tower, EmptyFrom, Headed, Filled;
      var value := Get(key);
      Set(key, value + amt);
    }

    method Decrease(key: Key, amt: int)
      requires Valid()
      modifies this
      ensures Valid() && top >= 1
      ensures leaves == old(leaves)[key := ValueAt(old(leaves), key) - amt]
      ensures old(Built()) || (old(top) == 0 && key == []) ==> Built()
    {
      hide Tower, EmptyFrom, Headed, Filled;
      Increase(key, -amt);
    }

    /** `NewTree`: opens a store, and gives a store without the empty key a zero there. */
    constructor (m: nat, leaves: map<Key, int>, nodes: Nodes, ghost top: nat)
      requires m < 256
      requires if top == 0 then leaves == map[] && EmptyFrom(nodes, 1)
               else Tower(nodes, 1, top, leaves) && Headed(nodes, 2)
      ensures Valid() && this.top >= 1 && this.m == m
      ensures this.leaves == if [] in leaves then leaves else leaves[[] := 0]
      ensures top == 0 ==> Built()
    {
      this.m := m;
      this.leaves := leaves;
      this.nodes := nodes;
      this.top := top;
      new;
      if [] !in this.leaves {
        Set([], 0);
      }
    }

    // ---- queries ----

    static method Greatest(keys: set<Key>) returns (k: Key)
      requires keys != {}
      ensures k in keys && forall k' | k' in keys :: Rank(k') <= Rank(k)
    {
      k :| k in keys;
      var rest := keys;
      while rest != {}
        invariant k in keys && rest <= keys
        invariant forall k' | k' in keys - rest :: Rank(k') <= Rank(k)
        decreases rest
      {
        var x :| x in rest;
        rest := rest - {x};
        if Compare(k, x) < 0 {
          k := x;
        }
      }
    }

    /** `root`: the last node of the store, which is the greatest key of its highest level. */
    method Root() returns (r: Option<(nat, Key)>)
      requires Valid()
      ensures r == if top == 0 then None else Some((top, []))
    {
      hide LevelOK;
      if top > 0 {
        TowerTop(nodes, 1, top, leaves);
      }
      var level, rest := 0, nodes.Keys;
      while rest != {}
        invariant level > 0 ==> LevelAt(nodes, level) != map[]
        invariant forall l | l in nodes && l !in rest && nodes[l] != map[] :: l <= level
        decreases rest
      {
        var l :| l in rest;
        rest := rest - {l};
        if l > level && nodes[l] != map[] {
          level := l;
        }
      }
      assert level == top by {
        assert top > 0 ==> top in nodes && nodes[top] != map[];
      }
      if level == 0 {
        return None;
      }
      var k := Greatest(LevelAt(nodes, level).Keys);
      return Some((level, k));
    }

    /** The key has a leaf at or below it inside the level-1 node that covers it. */
    ghost predicate Grounded(key: Key)
      reads this
    {
      forall k | Covers(LevelAt(nodes, 1).Keys, k, key) :: GroundedIn(leaves, k, key)
    }

    /** `accumulationSplit`, with `None` for the descent to child -1. */
    method AccumulationSplit(level: nat, k: Key, key: Key) returns (r: Option<Split>)
      requires Valid() && level <= top && top >= 1
      requires k in ItemsAt(nodes, leaves, level)
      requires level > 0 ==> Covers(LevelAt(nodes, level).Keys, k, key)
      ensures r.Some? <==> level == 0 || Grounded(key)
      ensures r.Some? && Covers(ItemsAt(nodes, leaves, level).Keys, k, key) ==>
                && r.value.left == SumBelow(leaves, key) - SumBelow(ItemsAt(nodes, leaves, level), k)
                && r.value.exact == ValueAt(leaves, key)
                && r.value.right == SumAbove(leaves, key) - SumAbove(ItemsAt(nodes, leaves, level), k)
      decreases level
    {
      hide LevelOK, Tower, Accumulate, SumBelow, SumAbove, Covers, FoundAt, GroundedIn;
      if level == 0 {
        if Covers(leaves.Keys, k, key) {
          LeafStep(leaves, k, key);
        }
        match Compare(k, key)
        case -1 => return Some(Split(leaves[k], 0, 0));
        case 0 => return Some(Split(0, leaves[k], 0));
        case _ => return Some(Split(0, 0, leaves[k]));
      }
      ghost var lvl, items := LevelAt(nodes, level), ItemsAt(nodes, leaves, level - 1);
      TowerLevel(nodes, 1, top, leaves, level);
      var node := nodes[level][k];
      var idx, match_ := Find(node, key);
      Descend(lvl, items, k, key, idx, match_);
      assert level >= 2 ==> HeadOK(k, lvl[k]);
      forall k' | level == 1 && Covers(lvl.Keys, k', key) ensures k' == k {
        CoverUnique(lvl.Keys, k, k', key);
      }
      if !match_ {
        if idx == 0 {
          return None;
        }
        idx := idx - 1;
      }
      StepLeft(lvl, items, k, idx);
      StepRight(lvl, items, k, idx);
      assert level >= 2 ==> items.Keys == LevelAt(nodes, level - 1).Keys;
      r := AccumulationSplit(level - 1, node[idx].index, key);
      if r.Some? {
        var left := Sum(node[..idx]);
        var right := Sum(node[idx + 1..]);
        r := Some(Split(r.value.left + left, r.value.exact, r.value.right + right));
      }
    }

    /** `SplitAcc`: exactly the flat map's sums, unless no leaf grounds the key. */
    method SplitAcc(key: Key) returns (r: Option<Split>)
      requires Valid() && top >= 1
      ensures r == if Grounded(key) then Some(Split(SumBelow(leaves, key), ValueAt(leaves, key), SumAbove(leaves, key))) else None
    {
      hide LevelOK, Tower, SumBelow, SumAbove, Covers;
      var root := Root();
      TowerTop(nodes, 1, top, leaves);
      RootCovers(LevelAt(nodes, top).Keys, key);
      RootStep(ItemsAt(nodes, leaves, top));
      r := AccumulationSplit(root.value.0, root.value.1, key);
    }

    /** In a tree that `Set` built, every key is grounded. */
    lemma BuiltGrounded(key: Key)
      requires Valid() && Built()
      ensures Grounded(key)
    {
      hide LevelOK, Tower;
      TowerLevel(nodes, 1, top, leaves, 1);
      forall k | Covers(LevelAt(nodes, 1).Keys, k, key)
        ensures GroundedIn(leaves, k, key)
      {
        NodeMirrors(LevelAt(nodes, 1), leaves, k);
        assert HeadOK(k, LevelAt(nodes, 1)[k]);
        assert k in leaves;
      }
    }

    /** What `SubsetAccumulation` computes, as a sum over the flat map. */
    ghost function SubsetSpec(start: Option<Key>, end: Option<Key>): int
      reads this
    {
      match (start, end)
      case (None, None) => ValueAt(leaves, [])
      case (Some(lo), Some(hi)) =>
        if Rank(lo) <= Rank(hi) then RangeSum(leaves, start, end)
        else -SumOver((set k | k in leaves && Rank(hi) < Rank(k) < Rank(lo)), leaves)
      case _ => RangeSum(leaves, start, end)
    }

    /** The keys that `SubsetAccumulation` descends to. */
    ghost predicate SubsetGrounded(start: Option<Key>, end: Option<Key>)
      reads this
    {
      match (start, end)
      case (None, None) => Grounded([])
      case (Some(lo), Some(hi)) => Grounded(lo) && Grounded(hi)
      case (None, Some(hi)) => Grounded(hi)
      case (Some(lo), None) => Grounded(lo)
    }

    /** `SubsetAccumulation`: the inclusive range sum; with no bound at all, only the empty key. */
    method SubsetAccumulation(start: Option<Key>, end: Option<Key>) returns (r: Option<int>)
      requires Valid() && top >= 1
      ensures r == if SubsetGrounded(start, end) then Some(SubsetSpec(start, end)) else None
    {
      hide Tower, SumBelow, SumAbove, RangeSum, Grounded;
      if start.None? {
        var s := SplitAcc(if end.Some? then end.value else []);
        if s.None? { return None; }
        if end.Some? { PrefixRange(leaves, end.value); } else { NothingBelowEmpty(leaves); }
        return Some(s.value.left + s.value.exact);
      }
      if end.None? {
        var s := SplitAcc(start.value);
        if s.None? { return None; }
        SuffixRange(leaves, start.value);
        return Some(s.value.exact + s.value.right);
      }
      var s := SplitAcc(start.value);
      var e := SplitAcc(end.value);
      if s.None? || e.None? { return None; }
      SuffixRange(leaves, start.value);
      if Rank(start.value) <= Rank(end.value) {
        MiddleRange(leaves, start.value, end.value);
      } else {
        SwappedRange(leaves, start.value, end.value);
      }
      return Some(s.value.exact + s.value.right - e.value.right);
    }

    /** `PrefixSum`: all leaves up to and including the key. */
    method PrefixSum(key: Key) returns (r: Option<int>)
      requires Valid() && top >= 1
      ensures r == if Grounded(key) then Some(RangeSum(leaves, None, Some(key))) else None
    {
      r := SubsetAccumulation(None, Some(key));
    }

    /** `TotalAccumulatedValue`: the value at the empty key. */
    method TotalAccumulatedValue() returns (r: Option<int>)
      requires Valid() && top >= 1
      ensures r == if Grounded([]) then Some(ValueAt(leaves, [])) else None
    {
      r := SubsetAccumulation(None, None);
    }

    // ---- removal ----

    /** `pull`, when the node keeps another child; the sum that is cached for the node may be out of date. */
    method Pull(level: nat, key: Key, c: Key, ghost items: map<Key, int>)
      requires 1 <= level && TowerBut(nodes, level, top, items, key)
      requires Covers(LevelAt(nodes, level).Keys, key, c) && c in items
      requires |LevelAt(nodes, level)[key]| > 1
      modifies `nodes
      ensures Tower(nodes, level, top, items - {c})
      ensures SameBelow(old(nodes), nodes, level)
      ensures LevelAt(nodes, level).Keys == old(LevelAt(nodes, level)).Keys
      ensures old(Headed(nodes, 2)) && (level >= 2 ==> c != key) ==> Headed(nodes, 2)
    {
      hide LevelOK, Covers, Accumulate, SameShape, Tower, Put, Headed;
      ghost var lvl := LevelAt(nodes, level);
      ghost var x :| TowerWith(nodes, level, top, key, x);
      ghost var sums := Sums(lvl)[key := x];
      var node := nodes[level][key];
      var idx, match_ := Find(node, c);
      FindInLevel(lvl, items, key, c, idx, match_);
      if !match_ {
        assert false; // pulling a child that is not there
      }
      DeleteOK(lvl, items, key, idx);
      DeleteKeepsHead(nodes, level, key, idx);
      node := Delete(node, idx);
      PutFrame(nodes, level, key, node, top, sums);
      nodes := Put(nodes, level, key, node);
      label Written:
      TowerBase(nodes, level + 1, top, sums);
      var p := Parent(level, key);
      var acc := Sum(node);
      UpdateAccumulation(level + 1, p, Child(key, acc), sums);
      SumsReplace(lvl, key, node);
      assert sums[key := acc] == Sums(lvl)[key := acc];
      TowerOn(nodes, level, top, items - {c});
      ShapeKeeps(old@Written(nodes), nodes, 2, 0, 0);
    }

    static method LeastAbove(keys: set<Key>, k: Key) returns (found: Option<Key>)
      ensures found.None? ==> forall x | x in keys :: Rank(x) <= Rank(k)
      ensures found.Some? ==> RightOf(keys, found.value, k)
    {
      found := None;
      var rest := keys;
      while rest != {}
        invariant rest <= keys
        invariant found.None? ==> forall x | x in keys - rest :: Rank(x) <= Rank(k)
        invariant found.Some? ==> found.value in keys && Rank(k) < Rank(found.value)
        invariant found.Some? ==> forall x | x in keys - rest && Rank(k) < Rank(x) :: Rank(found.value) <= Rank(x)
        decreases rest
      {
        var x :| x in rest;
        rest := rest - {x};
        if Compare(k, x) < 0 && (found.None? || Compare(x, found.value) < 0) {
          found := Some(x);
        }
      }
    }

    /** The merging step of `pull`, on two nodes with the same parent `p`: the parent is told the left node's old sum. */
    method MergeSiblings(level: nat, l: Key, r: Key, p: Key)
      requires 1 <= level && l in LevelAt(nodes, level) && r in LevelAt(nodes, level) && Rank(l) < Rank(r)
      requires TowerBut(nodes, level + 1, top, Sums(LevelAt(nodes, level)), p) && Headed(nodes, 2)
      requires Covers(LevelAt(nodes, level + 1).Keys, p, l) && Covers(LevelAt(nodes, level + 1).Keys, p, r)
      modifies `nodes
      ensures SameBelow(old(nodes), nodes, level)
      ensures LevelAt(nodes, level) == old(Merge(LevelAt(nodes, level), l, r))
      ensures Tower(nodes, level + 1, top, old((Sums(LevelAt(nodes, level)) - {r})[l := Accumulate(LevelAt(nodes, level)[l])]))
      ensures Headed(nodes, 2)
    {
      hide LevelOK, Covers, Accumulate, SameShape, Tower, Put, Drop, Headed, EmptyFrom, SameFrom, SameBelow, TowerBut;
      ghost var lvl := LevelAt(nodes, level);
      ghost var sums := Sums(lvl);
      var leftNode, rightNode := nodes[level][l], nodes[level][r];
      MergeFrame(nodes, level, top, l, r, p);
      nodes := Put(nodes, level, l, leftNode + rightNode);
      nodes := Drop(nodes, level, r);
      label Moved:
      ButTwoChildren(nodes, level + 1, top, sums, p, l, r);
      Pull(level + 1, p, r, sums);
      label Pulled:
      var acc := Sum(leftNode);
      UpdateAccumulation(level + 1, p, Child(l, acc), sums - {r});
      ShapeKeeps(old@Pulled(nodes), nodes, 2, 0, 0);
      BelowStep(old@Moved(nodes), old@Pulled(nodes), level);
      BelowStep(old@Pulled(nodes), nodes, level);
      BelowTrans(old(nodes), old@Moved(nodes), old@Pulled(nodes), nodes, level);
    }

    /** The last part of `pull`: the neighbours of a node that went merge if they share a parent and fit into one node. */
    method MergeNeighbours(level: nat, k: Key, c: Key, left: Option<Key>, right: Option<Key>,
                           ghost before: Nodes, ghost items: map<Key, int>)
      requires 1 <= level < top && Tower(before, level, top, items) && Headed(before, 2)
      requires k in LevelAt(before, level) && |LevelAt(before, level)[k]| == 1 && LevelAt(before, level)[k][0].index == c
      requires NeighboursFound(LevelAt(before, level).Keys, left, k, right)
      requires Told(before, nodes, m, top, level, left, k, right)
      modifies `nodes
      ensures SameBelow(old(nodes), nodes, level)
      ensures Outcome(before, nodes, m, top, level, k)
    {
      hide LevelOK, Covers, Accumulate, Tower, Headed, SameBelow, Merge, LeftOf, RightOf, Neighbours;
      hide Merges, Joined, Outcome, TowerBut;
      ghost var lvl := LevelAt(before, level);
      SameBelowRefl(nodes, level);
      if left.None? || right.None? {
        NoneFound(before, m, top, level, left, k, right);
        return;
      }
      BothFound(lvl.Keys, left, k, right);
      var a, b := left.value, right.value;
      NeighboursThere(lvl.Keys, a, k, b);
      NeighbourRanks(lvl.Keys, a, k, b);
      MergesAt(before, m, top, level, a, k, b);
      if Exists(level, a) && Exists(level, b) {
        var ap := Parent(level, a);
        var bp := Parent(level, b);
        if ap == bp && |nodes[level][a]| + |nodes[level][b]| < m {
          SumsDrop(lvl, k);
          MergeSiblings(level, a, b, ap);
          MergeDone(before, nodes, m, top, level, items, a, k, b, c);
        }
      }
    }

    /** `pull`, when the node `k` loses its only child: it goes, its parent is told, and its two neighbours may merge. */
    method PullLast(level: nat, k: Key, c: Key, ghost items: map<Key, int>)
      requires 1 <= level <= top && Tower(nodes, level, top, items) && Headed(nodes, 2)
      requires k in LevelAt(nodes, level) && |LevelAt(nodes, level)[k]| == 1 && LevelAt(nodes, level)[k][0].index == c
      modifies `nodes
      ensures SameBelow(old(nodes), nodes, level)
      ensures Outcome(old(nodes), nodes, m, top, level, k)
      decreases top - level
    {
      hide LevelOK, Covers, Accumulate, Tower, Drop, Headed, EmptyFrom, SameFrom, SameBelow, LeftOf, RightOf, Rank;
      hide Merges, Gone, Survives, Outcome, Lookup, TowerBut, Told, NeighboursFound;
      ghost var before, lvl := nodes, LevelAt(nodes, level);
      TowerBase(nodes, level, top, items);
      TowerBase(nodes, level + 1, top, Sums(lvl));
      var left := GreatestBelow(LevelAt(nodes, level).Keys, k);
      var right := LeastAbove(LevelAt(nodes, level).Keys, k);
      FoundBoth(lvl.Keys, left, k, right);
      var p := Parent(level, k);
      Dropping(nodes, level, k, top, items);
      nodes := Drop(nodes, level, k);
      label Dropped:
      if !Exists(level + 1, p) {
        NoParent(before, level, top, items, k, p);
        RootGone(before, nodes, m, top, items, k, c);
        return;
      }
      ParentFound(before, level, top, items, k, p);
      if |nodes[level + 1][p]| > 1 {
        TowerIsTowerBut(nodes, level + 1, top, Sums(lvl), p);
        Pull(level + 1, p, k, Sums(lvl));
        ToldStays(before, old@Dropped(nodes), nodes, m, top, level, items, left, k, right);
      } else {
        SingleParent(before, level, top, items, k, p);
        OnlyChildAbove(before, level, top, items, k);
        PullLast(level + 1, p, k, Sums(lvl));
        ToldWent(before, nodes, m, top, level, items, left, k, right);
      }
      label Pulled:
      MergeNeighbours(level, k, c, left, right, before, items);
      BelowTrans(before, old@Dropped(nodes), old@Pulled(nodes), nodes, level);
    }

    /** The leaf is the only child of its node. */
    ghost predicate Empties(key: Key)
      reads this
    {
      key in leaves && Size(LevelAt(nodes, 1), CoverOf(LevelAt(nodes, 1).Keys, key)) <= 1
    }

    /** The removal of this leaf leaves a well-formed tree. */
    ghost predicate RemoveKeeps(key: Key)
      reads this
    {
      top >= 1 && key in leaves ==>
        var k := CoverOf(LevelAt(nodes, 1).Keys, key);
        Size(LevelAt(nodes, 1), k) > 1 || Survives(nodes, m, top, 1, k)
    }

    /** `Remove`: the leaf goes; the tree stays well formed exactly when `RemoveKeeps` says so. */
    method Remove(key: Key)
      requires Valid()
      modifies this
      ensures leaves == old(leaves) - {key}
      ensures if old(RemoveKeeps(key)) then Valid() else forall t: nat :: !ValidAt(t)
      ensures !old(Empties(key)) ==> Valid() && top == old(top) && LevelAt(nodes, 1).Keys == old(LevelAt(nodes, 1).Keys)
    {
      hide LevelOK, Covers, Tower, Headed, EmptyFrom, Survives, Outcome, Broken, Gone, TowerBut;
      if key !in leaves {
        return;
      }
      TowerBase(nodes, 1, top, leaves);
      ghost var items, before := leaves, nodes;
      var p := Parent(0, key);
      NodeThere(LevelAt(nodes, 1), leaves, p, key);
      CoverUnique(LevelAt(nodes, 1).Keys, p, CoverOf(LevelAt(nodes, 1).Keys, key), key);
      leaves := leaves - {key};
      if |nodes[1][p]| > 1 {
        TowerIsTowerBut(nodes, 1, top, items, p);
        Pull(1, p, key, items);
      } else {
        OnlyChild(LevelAt(nodes, 1), items, p, key);
        PullLast(1, p, key, items);
        OutcomeDecides(before, nodes, m, top, items, p, key);
        if Gone(before, top, 1, p) {
          top := 0;
        } else if !Survives(before, m, top, 1, p) {
          BrokenInvalid();
        }
      }
    }

    lemma BrokenInvalid()
      requires Broken(nodes, 1)
      ensures forall t: nat :: !ValidAt(t)
    {
      forall t: nat ensures !ValidAt(t) {
        if ValidAt(t) {
          NotBroken(nodes, t, leaves);
          assert false;
        }
      }
    }

    /** The level-1 node of a leaf has no other child. */
    method IsOnlyChild(key: Key) returns (only: bool)
      requires Valid() && key in leaves
      ensures only <==> Empties(key)
    {
      hide LevelOK, Covers, Tower, Headed, EmptyFrom;
      TowerBase(nodes, 1, top, leaves);
      var p := Parent(0, key);
      NodeThere(LevelAt(nodes, 1), leaves, p, key);
      CoverUnique(LevelAt(nodes, 1).Keys, p, CoverOf(LevelAt(nodes, 1).Keys, key), key);
      only := |nodes[1][p]| == 1;
    }

    method Apply(u: Update)
      requires Valid() && (u.Remove? ==> !Empties(u.key))
      modifies this
      ensures Valid() && leaves == FlatStep(old(leaves), u)
      ensures old(Built()) && !u.Remove? ==> Built()
    {
      hide Tower, EmptyFrom, Headed, Filled, Survives, Covers;
      match u
      case Set(key, acc) => Set(key, acc);
      case Increase(key, amt) => Increase(key, amt);
      case Decrease(key, amt) => Decrease(key, amt);
      case Remove(key) => Remove(key);
    }

    /**
     Replays a run of updates up to the first removal that would empty its node, or to the end: the tree stays well formed and
     follows the flat map, and a tree that nothing was removed from stays built.
     */
    method Replay(run: seq<Update>) returns (n: nat)
      requires Valid()
      modifies this
      ensures n <= |run| && Valid()
      ensures leaves == FlatRun(old(leaves), run[..n])
      ensures n < |run| ==> run[n].Remove? && Empties(run[n].key)
      ensures old(Built()) && (forall i | 0 <= i < n :: !run[i].Remove?) ==> Built()
    {
      hide Tower, EmptyFrom, Headed, Filled, FlatRun, FlatStep, Covers, Empties, Built;
      FlatRunNone(leaves);
      assert run[..0] == [];
      n := 0;
      while n < |run|
        invariant n <= |run| && Valid()
        invariant leaves == FlatRun(old(leaves), run[..n])
        invariant old(Built()) && (forall i | 0 <= i < n :: !run[i].Remove?) ==> Built()
      {
        if run[n].Remove? && run[n].key in leaves {
          var only := IsOnlyChild(run[n].key);
          if only {
            return;
          }
        }
        AbsentStays(run[n].key);
        FlatRunNext(old(leaves), run, n);
        Apply(run[n]);
        n := n + 1;
      }
    }

    lemma AbsentStays(key: Key)
      ensures key !in leaves ==> !Empties(key)
    {
    }

    /** Without a leaf at the empty key, the empty key has nothing at or below it, and queries for it panic. */
    lemma EmptyKeyGrounded()
      requires Valid() && top >= 1
      ensures Grounded([]) <==> [] in leaves
    {
      hide LevelOK, Tower;
      TowerBase(nodes, 1, top, leaves);
      RootCoversEmpty(LevelAt(nodes, 1).Keys);
    }
  }
}
