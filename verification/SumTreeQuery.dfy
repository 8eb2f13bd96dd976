/** What the cached sums of one level say about the sums of the items below it. */
module SumTreeQuery {
  import opened Options
  import opened KeyOrder
  import opened MapSum
  import opened SumTreeLevel
  import opened SumTreeTower

  ghost function KeysBelow(items: map<Key, int>, key: Key): set<Key> {
    set k | k in items && Rank(k) < Rank(key)
  }

  ghost function KeysAbove(items: map<Key, int>, key: Key): set<Key> {
    set k | k in items && Rank(k) > Rank(key)
  }

  /** The flat map's sum of all values strictly below `key`. */
  ghost function SumBelow(items: map<Key, int>, key: Key): int {
    SumOver(KeysBelow(items, key), items)
  }

  /** The flat map's sum of all values strictly above `key`. */
  ghost function SumAbove(items: map<Key, int>, key: Key): int {
    SumOver(KeysAbove(items, key), items)
  }

  ghost function ValueAt(items: map<Key, int>, key: Key): int {
    if key in items then items[key] else 0
  }

  // ---- the children of a set of nodes ----

  ghost function Kids(cs: seq<Child>): set<Key> {
    set i | 0 <= i < |cs| :: cs[i].index
  }

  ghost function KidsOf(lvl: Level, ks: set<Key>): set<Key>
    requires ks <= lvl.Keys
  {
    set k, c | k in ks && c in Kids(lvl[k]) :: c
  }

  /** Entries that carry the values of the items that they name. */
  ghost predicate Mirrors(cs: seq<Child>, items: map<Key, int>) {
    Sorted(cs) && forall i | 0 <= i < |cs| :: cs[i].index in items && items[cs[i].index] == cs[i].acc
  }

  lemma {:induction false} AccumulateIsSum(cs: seq<Child>, items: map<Key, int>)
    requires Mirrors(cs, items)
    ensures Kids(cs) <= items.Keys
    ensures Accumulate(cs) == SumOver(Kids(cs), items)
  {
    if cs == [] {
      assert Kids(cs) == {};
    } else {
      var n := |cs| - 1;
      AccumulateIsSum(cs[..n], items);
      assert Kids(cs) == Kids(cs[..n]) + {cs[n].index};
      SumAdd(Kids(cs[..n]), items, cs[n].index);
    }
  }

  lemma NodeMirrors(lvl: Level, items: map<Key, int>, k: Key)
    requires LevelOK(lvl, items) && k in lvl
    ensures Mirrors(lvl[k], items)
    ensures Kids(lvl[k]) == set c | c in items && Covers(lvl.Keys, k, c)
  {
    assert NodeOK(lvl.Keys, items, k, lvl[k]);
    forall i | 0 <= i < |lvl[k]| ensures ChildOK(lvl.Keys, items, k, lvl[k][i]) {}
    forall c | c in items && Covers(lvl.Keys, k, c) ensures c in Kids(lvl[k]) {
      assert HasChild(lvl[k], c);
    }
  }

  /** The sums of a set of nodes add up to the values of all their children. */
  lemma {:induction false} SumOfKids(lvl: Level, items: map<Key, int>, ks: set<Key>)
    requires LevelOK(lvl, items) && ks <= lvl.Keys
    ensures KidsOf(lvl, ks) <= items.Keys
    ensures SumOver(ks, Sums(lvl)) == SumOver(KidsOf(lvl, ks), items)
    decreases |ks|
  {
    hide LevelOK, Accumulate, SumOver, Kids, Covers, Mirrors;
    if ks == {} {
      assert KidsOf(lvl, ks) == {};
      SumOverNone(items);
      SumOverNone(Sums(lvl));
    } else {
      var k :| k in ks;
      SumOfKids(lvl, items, ks - {k});
      SumRemove(ks, Sums(lvl), k);
      NodeMirrors(lvl, items, k);
      AccumulateIsSum(lvl[k], items);
      KidsApart(lvl, items, ks - {k}, k);
      assert KidsOf(lvl, ks) == KidsOf(lvl, ks - {k}) + Kids(lvl[k]);
      SumUnion(KidsOf(lvl, ks - {k}), Kids(lvl[k]), items);
    }
  }

  lemma KidsApart(lvl: Level, items: map<Key, int>, ks: set<Key>, k: Key)
    requires LevelOK(lvl, items) && ks <= lvl.Keys && k in lvl && k !in ks
    ensures KidsOf(lvl, ks) !! Kids(lvl[k])
  {
    hide LevelOK;
    NodeMirrors(lvl, items, k);
    forall k', c | k' in ks && c in Kids(lvl[k']) ensures c !in Kids(lvl[k]) {
      NodeMirrors(lvl, items, k');
      if c in Kids(lvl[k]) {
        CoverUnique(lvl.Keys, k, k', c);
      }
    }
  }

  // ---- stepping down one level ----

  lemma KidsSlice(cs: seq<Child>, items: map<Key, int>, lo: nat, hi: nat)
    requires Mirrors(cs, items) && lo <= hi <= |cs|
    ensures Mirrors(cs[lo..hi], items)
    ensures forall c :: c in Kids(cs[lo..hi]) <==> exists i :: lo <= i < hi && cs[i].index == c
  {
    forall c | exists i :: lo <= i < hi && cs[i].index == c
      ensures c in Kids(cs[lo..hi])
    {
      var i :| lo <= i < hi && cs[i].index == c;
      assert cs[lo..hi][i - lo].index == c;
    }
  }

  lemma Below(lvl: Level, items: map<Key, int>, k: Key, idx: nat, c: Key)
    requires LevelOK(lvl, items) && k in lvl && idx < |lvl[k]|
    ensures c in KeysBelow(items, lvl[k][idx].index) <==>
            c in KidsOf(lvl, KeysBelow(Sums(lvl), k)) || c in Kids(lvl[k][..idx])
  {
    hide LevelOK;
    NodeMirrors(lvl, items, k);
    KidsSlice(lvl[k], items, 0, idx);
    assert lvl[k][idx].index in Kids(lvl[k]);
    if c in items {
      RootThere(lvl, items);
      var k' := CoverExists(lvl.Keys, c);
      NodeMirrors(lvl, items, k');
      assert c in Kids(lvl[k']);
    }
    forall k' | k' in KeysBelow(Sums(lvl), k) && c in Kids(lvl[k'])
      ensures c in items && Rank(c) < Rank(k)
    {
      NodeMirrors(lvl, items, k');
    }
  }

  lemma Above(lvl: Level, items: map<Key, int>, k: Key, idx: nat, c: Key)
    requires LevelOK(lvl, items) && k in lvl && idx < |lvl[k]|
    ensures c in KeysAbove(items, lvl[k][idx].index) <==>
            c in KidsOf(lvl, KeysAbove(Sums(lvl), k)) || c in Kids(lvl[k][idx + 1..])
  {
    hide LevelOK;
    NodeMirrors(lvl, items, k);
    KidsSlice(lvl[k], items, idx + 1, |lvl[k]|);
    assert lvl[k][idx + 1..] == lvl[k][idx + 1..|lvl[k]|];
    assert lvl[k][idx].index in Kids(lvl[k]);
    if c in items {
      RootThere(lvl, items);
      var k' := CoverExists(lvl.Keys, c);
      NodeMirrors(lvl, items, k');
      assert c in Kids(lvl[k']);
    }
    forall k' | k' in KeysAbove(Sums(lvl), k) && c in Kids(lvl[k'])
      ensures c in items && Rank(c) > Rank(lvl[k][idx].index)
    {
      NodeMirrors(lvl, items, k');
    }
  }

  lemma RootThere(lvl: Level, items: map<Key, int>)
    requires LevelOK(lvl, items)
    ensures [] in lvl.Keys
  {
  }

  /** The sum below a child: the sum below its node, one level up, plus its left siblings. */
  lemma StepLeft(lvl: Level, items: map<Key, int>, k: Key, idx: nat)
    requires LevelOK(lvl, items) && k in lvl && idx < |lvl[k]|
    ensures SumBelow(items, lvl[k][idx].index) == SumBelow(Sums(lvl), k) + Accumulate(lvl[k][..idx])
  {
    hide LevelOK, Accumulate;
    var nodes, siblings := KeysBelow(Sums(lvl), k), Kids(lvl[k][..idx]);
    forall c {
      Below(lvl, items, k, idx, c);
    }
    assert KeysBelow(items, lvl[k][idx].index) == KidsOf(lvl, nodes) + siblings;
    NodeMirrors(lvl, items, k);
    KidsSlice(lvl[k], items, 0, idx);
    AccumulateIsSum(lvl[k][..idx], items);
    SumOfKids(lvl, items, nodes);
    KidsApart(lvl, items, nodes, k);
    assert siblings <= Kids(lvl[k]);
    SumUnion(KidsOf(lvl, nodes), siblings, items);
  }

  /** The sum above a child: the sum above its node, one level up, plus its right siblings. */
  lemma StepRight(lvl: Level, items: map<Key, int>, k: Key, idx: nat)
    requires LevelOK(lvl, items) && k in lvl && idx < |lvl[k]|
    ensures SumAbove(items, lvl[k][idx].index) == SumAbove(Sums(lvl), k) + Accumulate(lvl[k][idx + 1..])
  {
    hide LevelOK, Accumulate;
    var nodes, siblings := KeysAbove(Sums(lvl), k), Kids(lvl[k][idx + 1..]);
    forall c {
      Above(lvl, items, k, idx, c);
    }
    assert KeysAbove(items, lvl[k][idx].index) == KidsOf(lvl, nodes) + siblings;
    NodeMirrors(lvl, items, k);
    KidsSlice(lvl[k], items, idx + 1, |lvl[k]|);
    assert lvl[k][idx + 1..] == lvl[k][idx + 1..|lvl[k]|];
    AccumulateIsSum(lvl[k][idx + 1..], items);
    SumOfKids(lvl, items, nodes);
    KidsApart(lvl, items, nodes, k);
    assert siblings <= Kids(lvl[k]);
    SumUnion(KidsOf(lvl, nodes), siblings, items);
  }

  /** The child to descend into covers the key among the items of the level below. */
  lemma ChildCovers(lvl: Level, items: map<Key, int>, k: Key, key: Key, idx: nat)
    requires LevelOK(lvl, items) && Covers(lvl.Keys, k, key)
    requires idx < |lvl[k]| && Rank(lvl[k][idx].index) <= Rank(key)
    requires forall j | idx < j < |lvl[k]| :: Rank(key) < Rank(lvl[k][j].index)
    ensures Covers(items.Keys, lvl[k][idx].index, key)
  {
    hide LevelOK;
    var b := lvl[k][idx].index;
    NodeMirrors(lvl, items, k);
    assert b in Kids(lvl[k]);
    forall c | c in items && Rank(c) <= Rank(key) ensures Rank(c) <= Rank(b) {
      RootThere(lvl, items);
      var k' := CoverExists(lvl.Keys, c);
      if k' == k {
        assert c in Kids(lvl[k]);
      }
    }
  }

  /** No child is at or below the key exactly when no item between node and key exists. */
  lemma NothingBelow(lvl: Level, items: map<Key, int>, k: Key, key: Key)
    requires LevelOK(lvl, items) && Covers(lvl.Keys, k, key)
    ensures (forall i | 0 <= i < |lvl[k]| :: Rank(key) < Rank(lvl[k][i].index)) <==>
            !exists c :: c in items && Rank(k) <= Rank(c) <= Rank(key)
  {
    hide LevelOK;
    NodeMirrors(lvl, items, k);
    forall i | 0 <= i < |lvl[k]| ensures lvl[k][i].index in Kids(lvl[k]) {}
    forall c | c in items && Rank(k) <= Rank(c) <= Rank(key) ensures c in Kids(lvl[k]) {
      assert Covers(lvl.Keys, k, c);
    }
  }

  /** There is some item between the node and the key. */
  ghost predicate GroundedIn(items: map<Key, int>, k: Key, key: Key) {
    exists c :: c in items && Rank(k) <= Rank(c) <= Rank(key)
  }

  /** Where the descent goes from what `find` returned, and when it cannot go anywhere. */
  lemma Descend(lvl: Level, items: map<Key, int>, k: Key, key: Key, idx: nat, match_: bool)
    requires LevelOK(lvl, items) && Covers(lvl.Keys, k, key)
    requires FoundAt(lvl[k], key, idx, match_)
    ensures (match_ || idx > 0) <==> GroundedIn(items, k, key)
    ensures HeadOK(k, lvl[k]) ==> match_ || idx > 0
    ensures match_ || idx > 0 ==>
              var i := if match_ then idx else idx - 1;
              i < |lvl[k]| && lvl[k][i].index in items && Covers(items.Keys, lvl[k][i].index, key)
  {
    hide LevelOK;
    NodeMirrors(lvl, items, k);
    NothingBelow(lvl, items, k, key);
    FindDecides(lvl[k], key, idx, match_);
    if match_ || idx > 0 {
      ChildCovers(lvl, items, k, key, if match_ then idx else idx - 1);
    }
  }

  /** At a leaf: the flat sums on both sides of a key, from those of the leaf that covers it. */
  lemma LeafStep(items: map<Key, int>, k: Key, key: Key)
    requires Covers(items.Keys, k, key)
    ensures SumBelow(items, key) == SumBelow(items, k) + (if k == key then 0 else items[k])
    ensures SumAbove(items, key) == SumAbove(items, k)
    ensures ValueAt(items, key) == if k == key then items[k] else 0
    ensures Rank(k) <= Rank(key)
  {
    assert KeysAbove(items, key) == KeysAbove(items, k);
    if k == key {
    } else {
      assert KeysBelow(items, key) == KeysBelow(items, k) + {k};
      SumAdd(KeysBelow(items, k), items, k);
    }
  }

  /** Nothing lies beside a single item at the empty key. */
  lemma RootStep(items: map<Key, int>)
    requires items.Keys == {[]}
    ensures SumBelow(items, []) == 0 && SumAbove(items, []) == 0
  {
    assert KeysBelow(items, []) == {} && KeysAbove(items, []) == {};
  }

  lemma RootCovers(keys: set<Key>, key: Key)
    requires keys == {[]}
    ensures Covers(keys, [], key)
  {
  }

  lemma RootCoversEmpty(keys: set<Key>)
    requires [] in keys
    ensures Covers(keys, [], []) && forall k | Covers(keys, k, []) :: k == []
  {
  }

  lemma NothingBelowEmpty(items: map<Key, int>)
    ensures SumBelow(items, []) == 0
  {
    assert KeysBelow(items, []) == {};
  }

  /** The total over all leaves, which the empty key's value equals only by chance. */
  lemma TotalIsEmptyKeyIff(items: map<Key, int>)
    ensures RangeSum(items, None, None) == ValueAt(items, []) <==> SumAbove(items, []) == 0
    ensures (forall k | k in items :: items[k] >= 0) ==>
              (RangeSum(items, None, None) == ValueAt(items, []) <==> forall k | k in items && k != [] :: items[k] == 0)
  {
    hide SumOver;
    NothingBelowEmpty(items);
    SuffixRange(items, []);
    assert (set k | k in items && InRange(k, None, None)) == (set k | k in items && InRange(k, Some([]), None));
    if forall k | k in items :: items[k] >= 0 {
      SumOfNone(KeysAbove(items, []), items);
      assert forall k | k in items && k != [] :: k in KeysAbove(items, []);
    }
  }

  /** Numbers that are not negative sum to zero only if all of them are zero. */
  lemma {:induction false} SumOfNone(ks: set<Key>, items: map<Key, int>)
    requires ks <= items.Keys && forall k | k in ks :: items[k] >= 0
    ensures SumOver(ks, items) >= 0
    ensures SumOver(ks, items) == 0 <==> forall k | k in ks :: items[k] == 0
    decreases |ks|
  {
    hide SumOver;
    if ks == {} {
      SumOverNone(items);
    } else {
      var k :| k in ks;
      SumOfNone(ks - {k}, items);
      SumRemove(ks, items, k);
    }
  }

  lemma SumOverNone(items: map<Key, int>)
    ensures SumOver({}, items) == 0
  {
  }

  // ---- inclusive ranges of the flat map ----

  /** `lo <= k <= hi`, where an absent bound does not constrain. */
  ghost predicate InRange(k: Key, lo: Option<Key>, hi: Option<Key>) {
    (lo.Some? ==> Rank(lo.value) <= Rank(k)) && (hi.Some? ==> Rank(k) <= Rank(hi.value))
  }

  /** The sum of all values whose keys are in an inclusive range. */
  ghost function RangeSum(items: map<Key, int>, lo: Option<Key>, hi: Option<Key>): int {
    SumOver((set k | k in items && InRange(k, lo, hi)), items)
  }

  lemma PrefixRange(items: map<Key, int>, hi: Key)
    ensures RangeSum(items, None, Some(hi)) == SumBelow(items, hi) + ValueAt(items, hi)
  {
    var s := set k | k in items && InRange(k, None, Some(hi));
    if hi in items {
      assert s == KeysBelow(items, hi) + {hi};
      SumAdd(KeysBelow(items, hi), items, hi);
    } else {
      assert s == KeysBelow(items, hi);
    }
  }

  lemma SuffixRange(items: map<Key, int>, lo: Key)
    ensures RangeSum(items, Some(lo), None) == ValueAt(items, lo) + SumAbove(items, lo)
  {
    var s := set k | k in items && InRange(k, Some(lo), None);
    if lo in items {
      assert s == KeysAbove(items, lo) + {lo};
      SumAdd(KeysAbove(items, lo), items, lo);
    } else {
      assert s == KeysAbove(items, lo);
    }
  }

  /** A suffix minus the part above `hi` is the inclusive range. */
  lemma MiddleRange(items: map<Key, int>, lo: Key, hi: Key)
    requires Rank(lo) <= Rank(hi)
    ensures RangeSum(items, Some(lo), None) == RangeSum(items, Some(lo), Some(hi)) + SumAbove(items, hi)
  {
    var mid := set k | k in items && InRange(k, Some(lo), Some(hi));
    var s := set k | k in items && InRange(k, Some(lo), None);
    assert s == mid + KeysAbove(items, hi);
    SumUnion(mid, KeysAbove(items, hi), items);
  }

  /** With the bounds swapped, the difference is minus the sum strictly between them. */
  lemma SwappedRange(items: map<Key, int>, lo: Key, hi: Key)
    requires Rank(hi) < Rank(lo)
    ensures
      var between := set k | k in items && Rank(hi) < Rank(k) < Rank(lo);
      RangeSum(items, Some(lo), None) - SumAbove(items, hi) == -SumOver(between, items)
  {
    var between := set k | k in items && Rank(hi) < Rank(k) < Rank(lo);
    var s := set k | k in items && InRange(k, Some(lo), None);
    assert KeysAbove(items, hi) == between + s;
    SumUnion(between, s, items);
  }
}
