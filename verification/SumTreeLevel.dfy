/**
 One level of the sum tree: the branch nodes of that level, and the items (the nodes or leaves
 of the level below) that they list as children.
 */
module SumTreeLevel {
  import opened KeyOrder

  /** An entry of a branch: the key of an item one level below and the cached sum under it. */
  datatype Child = Child(index: Key, acc: int)

  type Level = map<Key, seq<Child>>

  /** The sum of the cached sums of a node's children. */
  ghost function Accumulate(cs: seq<Child>): int {
    if cs == [] then 0 else Accumulate(cs[..|cs| - 1]) + cs[|cs| - 1].acc
  }

  lemma {:induction false} AccumulateConcat(a: seq<Child>, b: seq<Child>)
    ensures Accumulate(a + b) == Accumulate(a) + Accumulate(b)
  {
    if b == [] {
      assert a + b == a;
    } else {
      AccumulateConcat(a, b[..|b| - 1]);
      assert (a + b)[..|a + b| - 1] == a + b[..|b| - 1];
    }
  }

  lemma AccumulateOne(c: Child)
    ensures Accumulate([c]) == c.acc
  {
    assert [c][..0] == [];
  }

  ghost predicate Sorted(cs: seq<Child>) {
    forall i, j | 0 <= i < j < |cs| :: Rank(cs[i].index) < Rank(cs[j].index)
  }

  ghost predicate HasChild(cs: seq<Child>, c: Key) {
    exists i :: 0 <= i < |cs| && cs[i].index == c
  }

  /** `k` is the greatest of `keys` that is not above `c`. */
  ghost predicate Covers(keys: set<Key>, k: Key, c: Key) {
    && k in keys
    && Rank(k) <= Rank(c)
    && forall k' | k' in keys && Rank(k') <= Rank(c) :: Rank(k') <= Rank(k)
  }

  ghost predicate ChildOK(keys: set<Key>, items: map<Key, int>, k: Key, c: Child) {
    Covers(keys, k, c.index) && c.index in items && items[c.index] == c.acc
  }

  /** A node lists, in strict order, items that it covers, each with its current sum. */
  ghost predicate NodeOK(keys: set<Key>, items: map<Key, int>, k: Key, cs: seq<Child>) {
    && cs != []
    && Sorted(cs)
    && forall i | 0 <= i < |cs| :: ChildOK(keys, items, k, cs[i])
  }

  /** Every item is listed by the node that covers it, and nothing else is listed. */
  ghost predicate LevelOK(lvl: Level, items: map<Key, int>) {
    && [] in lvl
    && (forall k | k in lvl :: NodeOK(lvl.Keys, items, k, lvl[k]))
    && (forall k, c | c in items && Covers(lvl.Keys, k, c) :: HasChild(lvl[k], c))
  }

  /** The sums that the level above has to cache for the nodes of this level. */
  ghost function Sums(lvl: Level): map<Key, int> {
    map k | k in lvl :: Accumulate(lvl[k])
  }

  lemma SumsReplace(lvl: Level, k: Key, cs: seq<Child>)
    ensures Sums(lvl[k := cs]) == Sums(lvl)[k := Accumulate(cs)]
  {
  }

  lemma NotCovered(keys: set<Key>, k: Key, c: Key)
    requires k !in keys
    ensures !Covers(keys, k, c)
  {
  }

  /** With the empty key among the nodes, every key is covered. */
  lemma {:induction false} CoverExists(keys: set<Key>, c: Key) returns (k: Key)
    requires [] in keys
    ensures Covers(keys, k, c)
    decreases |keys|
  {
    if keys == {[]} {
      k := [];
    } else {
      var x :| x in keys && x != [];
      k := CoverExists(keys - {x}, c);
      if Rank(x) <= Rank(c) && Rank(k) < Rank(x) {
        k := x;
      }
    }
  }

  lemma CoverUnique(keys: set<Key>, k: Key, k': Key, c: Key)
    requires Covers(keys, k, c) && Covers(keys, k', c)
    ensures k == k'
  {
    assert Rank(k) == Rank(k');
  }

  /** The position of a key in a node: the place where `find` stops. */
  ghost predicate FoundAt(cs: seq<Child>, key: Key, idx: nat, match_: bool) {
    && idx <= |cs|
    && (forall j | 0 <= j < idx :: Rank(cs[j].index) < Rank(key))
    && (match_ ==> idx < |cs| && cs[idx].index == key)
    && (!match_ && idx < |cs| ==> Rank(key) < Rank(cs[idx].index))
  }

  /** Where `find` stops decides whether the key is listed at all. */
  lemma FindDecides(cs: seq<Child>, key: Key, idx: nat, match_: bool)
    requires Sorted(cs)
    requires FoundAt(cs, key, idx, match_)
    ensures match_ <==> HasChild(cs, key)
    ensures forall j | idx < j < |cs| :: Rank(key) < Rank(cs[j].index)
  {
  }

  lemma HasChildInsert(cs: seq<Child>, idx: nat, c: Child, d: Key)
    requires idx <= |cs|
    ensures HasChild(Insert(cs, idx, c), d) <==> d == c.index || HasChild(cs, d)
  {
    var cs' := Insert(cs, idx, c);
    assert cs'[idx] == c;
    forall i | 0 <= i < |cs| ensures HasChild(cs', cs[i].index) {
      assert cs'[if i < idx then i else i + 1] == cs[i];
    }
  }

  lemma HasChildDelete(cs: seq<Child>, idx: nat, d: Key)
    requires idx < |cs| && Sorted(cs)
    ensures HasChild(Delete(cs, idx), d) <==> d != cs[idx].index && HasChild(cs, d)
  {
    var cs' := Delete(cs, idx);
    forall i | 0 <= i < |cs| && i != idx ensures HasChild(cs', cs[i].index) {
      assert cs'[if i < idx then i else i - 1] == cs[i];
    }
    forall i | 0 <= i < |cs'| ensures HasChild(cs, cs'[i].index) && cs'[i].index != cs[idx].index {
      assert cs'[i] == cs[if i < idx then i else i + 1];
    }
  }

  /** A listed item is a known item, and it is listed by the node that covers it. */
  lemma ListedIff(lvl: Level, items: map<Key, int>, k: Key, c: Key)
    requires LevelOK(lvl, items)
    requires Covers(lvl.Keys, k, c)
    ensures HasChild(lvl[k], c) <==> c in items
  {
    assert NodeOK(lvl.Keys, items, k, lvl[k]);
  }

  /** What `find` returns on the node that covers the key. */
  lemma FindInLevel(lvl: Level, items: map<Key, int>, k: Key, key: Key, idx: nat, match_: bool)
    requires LevelOK(lvl, items)
    requires Covers(lvl.Keys, k, key)
    requires FoundAt(lvl[k], key, idx, match_)
    ensures match_ <==> key in items
  {
    ListedIff(lvl, items, k, key);
    assert NodeOK(lvl.Keys, items, k, lvl[k]);
    FindDecides(lvl[k], key, idx, match_);
  }

  lemma NodeThere(lvl: Level, items: map<Key, int>, k: Key, c: Key)
    requires LevelOK(lvl, items)
    requires Covers(lvl.Keys, k, c)
    ensures k in lvl && lvl[k] != []
  {
    assert NodeOK(lvl.Keys, items, k, lvl[k]);
  }

  lemma OnlyChild(lvl: Level, items: map<Key, int>, k: Key, c: Key)
    requires LevelOK(lvl, items)
    requires Covers(lvl.Keys, k, c) && c in items && |lvl[k]| == 1
    ensures lvl[k][0].index == c
  {
    assert HasChild(lvl[k], c);
  }

  // ---- one node of the level changes ----

  /** Replacing one node's children, when the items change accordingly. */
  lemma ReplaceNode(lvl: Level, items: map<Key, int>, k: Key, cs: seq<Child>, items': map<Key, int>)
    requires LevelOK(lvl, items)
    requires k in lvl
    requires NodeOK(lvl.Keys, items', k, cs)
    requires forall c | c in items' && Covers(lvl.Keys, k, c) :: HasChild(cs, c)
    requires forall c | !Covers(lvl.Keys, k, c) :: (c in items' <==> c in items) && (c in items ==> items'[c] == items[c])
    ensures LevelOK(lvl[k := cs], items')
  {
    var lvl' := lvl[k := cs];
    assert lvl'.Keys == lvl.Keys;
    forall k' | k' in lvl'
      ensures NodeOK(lvl'.Keys, items', k', lvl'[k'])
    {
      if k' != k {
        assert NodeOK(lvl.Keys, items, k', lvl[k']);
        forall i | 0 <= i < |lvl[k']|
          ensures ChildOK(lvl.Keys, items', k', lvl[k'][i])
        {
          assert ChildOK(lvl.Keys, items, k', lvl[k'][i]);
          var c := lvl[k'][i].index;
          if Covers(lvl.Keys, k, c) {
            CoverUnique(lvl.Keys, k, k', c);
          }
        }
      }
    }
    forall k', c | c in items' && Covers(lvl'.Keys, k', c)
      ensures HasChild(lvl'[k'], c)
    {
      if k' != k && Covers(lvl.Keys, k, c) {
        CoverUnique(lvl.Keys, k, k', c);
      }
    }
  }

  lemma SetAccOK(lvl: Level, items: map<Key, int>, k: Key, idx: nat, acc: int)
    requires LevelOK(lvl, items)
    requires k in lvl && idx < |lvl[k]|
    ensures
      var c := lvl[k][idx].index;
      var cs := lvl[k][idx := Child(c, acc)];
      && c in items
      && LevelOK(lvl[k := cs], items[c := acc])
  {
    var old_ := lvl[k];
    var c := old_[idx].index;
    var cs := old_[idx := Child(c, acc)];
    assert NodeOK(lvl.Keys, items, k, old_);
    assert ChildOK(lvl.Keys, items, k, old_[idx]);
    forall i | 0 <= i < |cs|
      ensures ChildOK(lvl.Keys, items[c := acc], k, cs[i])
    {
      assert ChildOK(lvl.Keys, items, k, old_[i]);
    }
    forall d | d in items[c := acc] && Covers(lvl.Keys, k, d)
      ensures HasChild(cs, d)
    {
      var i :| 0 <= i < |old_| && old_[i].index == d;
      assert cs[i].index == d;
    }
    ReplaceNode(lvl, items, k, cs, items[c := acc]);
  }

  /** `insert`: the new child takes position `idx`. */
  function Insert(cs: seq<Child>, idx: nat, c: Child): seq<Child>
    requires idx <= |cs|
  {
    cs[..idx] + [c] + cs[idx..]
  }

  lemma InsertNodeOK(keys: set<Key>, items: map<Key, int>, k: Key, cs: seq<Child>, idx: nat, c: Child)
    requires NodeOK(keys, items, k, cs)
    requires Covers(keys, k, c.index)
    requires FoundAt(cs, c.index, idx, false)
    ensures NodeOK(keys, items[c.index := c.acc], k, Insert(cs, idx, c))
  {
    FindDecides(cs, c.index, idx, false);
    var cs' := Insert(cs, idx, c);
    forall i | 0 <= i < |cs'|
      ensures ChildOK(keys, items[c.index := c.acc], k, cs'[i])
    {
      if i != idx {
        assert cs'[i] == cs[if i < idx then i else i - 1];
        assert ChildOK(keys, items, k, cs'[i]);
      }
    }
  }

  lemma InsertOK(lvl: Level, items: map<Key, int>, k: Key, idx: nat, c: Child)
    requires LevelOK(lvl, items)
    requires Covers(lvl.Keys, k, c.index)
    requires FoundAt(lvl[k], c.index, idx, false)
    ensures LevelOK(lvl[k := Insert(lvl[k], idx, c)], items[c.index := c.acc])
  {
    var items' := items[c.index := c.acc];
    InsertNodeOK(lvl.Keys, items, k, lvl[k], idx, c);
    forall d | d in items' && Covers(lvl.Keys, k, d)
      ensures HasChild(Insert(lvl[k], idx, c), d)
    {
      HasChildInsert(lvl[k], idx, c, d);
    }
    ReplaceNode(lvl, items, k, Insert(lvl[k], idx, c), items');
  }

  /** `delete`: the child at position `idx` is dropped. */
  function Delete(cs: seq<Child>, idx: nat): seq<Child>
    requires idx < |cs|
  {
    cs[..idx] + cs[idx + 1..]
  }

  lemma DeleteOK(lvl: Level, items: map<Key, int>, k: Key, idx: nat)
    requires LevelOK(lvl, items)
    requires k in lvl && idx < |lvl[k]| && |lvl[k]| > 1
    ensures LevelOK(lvl[k := Delete(lvl[k], idx)], items - {lvl[k][idx].index})
  {
    var old_ := lvl[k];
    var cs := Delete(old_, idx);
    var items' := items - {old_[idx].index};
    assert NodeOK(lvl.Keys, items, k, old_);
    assert ChildOK(lvl.Keys, items, k, old_[idx]);
    forall i | 0 <= i < |cs|
      ensures ChildOK(lvl.Keys, items', k, cs[i])
    {
      var j := if i < idx then i else i + 1;
      assert cs[i] == old_[j];
      assert ChildOK(lvl.Keys, items, k, old_[j]);
    }
    forall d | d in items' && Covers(lvl.Keys, k, d)
      ensures HasChild(cs, d)
    {
      HasChildDelete(old_, idx, d);
    }
    ReplaceNode(lvl, items, k, cs, items');
  }

  // ---- one node of the level splits ----

  /** The level after the node `k` keeps its first `n` children and a new node takes the rest. */
  ghost function SplitLevel(lvl: Level, k: Key, n: nat): Level
    requires k in lvl && 0 < n < |lvl[k]|
  {
    lvl[k := lvl[k][..n]][lvl[k][n].index := lvl[k][n..]]
  }

  /** The new node's key is new, and it takes over exactly what `k` covered from there on. */
  lemma SplitCovers(lvl: Level, items: map<Key, int>, k: Key, n: nat)
    requires LevelOK(lvl, items)
    requires k in lvl && 0 < n < |lvl[k]|
    ensures
      var rk := lvl[k][n].index;
      && rk !in lvl
      && Rank(k) < Rank(rk)
      && Covers(lvl.Keys, k, rk)
      && forall k', c ::
           Covers(lvl.Keys + {rk}, k', c) <==>
             if k' == rk then Covers(lvl.Keys, k, c) && Rank(rk) <= Rank(c)
             else Covers(lvl.Keys, k', c) && (k' == k ==> Rank(c) < Rank(rk))
  {
    var cs, keys := lvl[k], lvl.Keys;
    var rk := cs[n].index;
    assert NodeOK(keys, items, k, cs);
    assert ChildOK(keys, items, k, cs[0]) && ChildOK(keys, items, k, cs[n]);
    forall k', c
      ensures Covers(keys + {rk}, k', c) <==>
             if k' == rk then Covers(keys, k, c) && Rank(rk) <= Rank(c)
             else Covers(keys, k', c) && (k' == k ==> Rank(c) < Rank(rk))
    {
      SplitCoversAt(keys, k, rk, k', c);
    }
  }

  lemma SplitCoversAt(keys: set<Key>, k: Key, rk: Key, k': Key, c: Key)
    requires Covers(keys, k, rk) && Rank(k) < Rank(rk)
    ensures Covers(keys + {rk}, k', c) <==>
             if k' == rk then Covers(keys, k, c) && Rank(rk) <= Rank(c)
             else Covers(keys, k', c) && (k' == k ==> Rank(c) < Rank(rk))
  {
    assert rk !in keys;
    assert k in keys + {rk} && rk in keys + {rk};
  }

  lemma SortedSlice(cs: seq<Child>, lo: nat, hi: nat)
    requires Sorted(cs) && lo <= hi <= |cs|
    ensures Sorted(cs[lo..hi])
    ensures forall i, c | lo <= i < hi && c == cs[i] :: c in cs[lo..hi]
  {
    forall i, c | lo <= i < hi && c == cs[i] ensures c in cs[lo..hi] {
      assert cs[lo..hi][i - lo] == c;
    }
  }

  lemma SplitNodeOK(lvl: Level, items: map<Key, int>, k: Key, n: nat, k': Key)
    requires LevelOK(lvl, items)
    requires k in lvl && 0 < n < |lvl[k]|
    requires k' in lvl.Keys + {lvl[k][n].index}
    ensures NodeOK(lvl.Keys + {lvl[k][n].index}, items, k', SplitLevel(lvl, k, n)[k'])
  {
    SplitCovers(lvl, items, k, n);
    var keys, cs := lvl.Keys, lvl[k];
    var rk := cs[n].index;
    assert NodeOK(keys, items, k, cs);
    if k' == rk || k' == k {
      var lo, hi := if k' == rk then n else 0, if k' == rk then |cs| else n;
      SortedSlice(cs, lo, hi);
      forall i | lo <= i < hi ensures ChildOK(keys + {rk}, items, k', cs[i]) {
        assert ChildOK(keys, items, k, cs[i]);
      }
      assert SplitLevel(lvl, k, n)[k'] == cs[lo..hi];
    } else {
      assert NodeOK(keys, items, k', lvl[k']);
      forall i | 0 <= i < |lvl[k']| ensures ChildOK(keys + {rk}, items, k', lvl[k'][i]) {
        assert ChildOK(keys, items, k', lvl[k'][i]);
      }
    }
  }

  lemma SplitOK(lvl: Level, items: map<Key, int>, k: Key, n: nat)
    requires LevelOK(lvl, items)
    requires k in lvl && 0 < n < |lvl[k]|
    ensures LevelOK(SplitLevel(lvl, k, n), items)
  {
    var cs, lvl' := lvl[k], SplitLevel(lvl, k, n);
    var rk := cs[n].index;
    SplitCovers(lvl, items, k, n);
    assert lvl'.Keys == lvl.Keys + {rk};
    forall k' | k' in lvl' ensures NodeOK(lvl'.Keys, items, k', lvl'[k']) {
      SplitNodeOK(lvl, items, k, n, k');
    }
    forall k', c | c in items && Covers(lvl'.Keys, k', c)
      ensures HasChild(lvl'[k'], c)
    {
      SplitHasChild(lvl, items, k, n, k', c);
    }
  }

  lemma SplitHasChild(lvl: Level, items: map<Key, int>, k: Key, n: nat, k': Key, c: Key)
    requires LevelOK(lvl, items)
    requires k in lvl && 0 < n < |lvl[k]|
    requires c in items && Covers(SplitLevel(lvl, k, n).Keys, k', c)
    ensures HasChild(SplitLevel(lvl, k, n)[k'], c)
  {
    hide LevelOK, Covers, HasChild, Sorted;
    var cs, lvl' := lvl[k], SplitLevel(lvl, k, n);
    var rk := cs[n].index;
    SplitCovers(lvl, items, k, n);
    assert lvl'.Keys == lvl.Keys + {rk};
    var source := if k' == rk then k else k';
    ListedIff(lvl, items, source, c);
    if source == k {
      NodeSorted(lvl, items, k);
      ChildInHalf(cs, n, c);
    }
  }

  lemma NodeSorted(lvl: Level, items: map<Key, int>, k: Key)
    requires LevelOK(lvl, items) && k in lvl
    ensures Sorted(lvl[k])
  {
    assert NodeOK(lvl.Keys, items, k, lvl[k]);
  }

  /** A child is in the half that its key belongs to. */
  lemma ChildInHalf(cs: seq<Child>, n: nat, c: Key)
    requires HasChild(cs, c) && n < |cs|
    requires Sorted(cs)
    ensures if Rank(cs[n].index) <= Rank(c) then HasChild(cs[n..], c) else HasChild(cs[..n], c)
  {
    var i :| 0 <= i < |cs| && cs[i].index == c;
    if i >= n {
      assert cs[n..][i - n] == cs[i];
    } else {
      assert cs[..n][i] == cs[i];
    }
  }

  /** The key of the node that a split creates. */
  lemma SplitKey(lvl: Level, items: map<Key, int>, k: Key, cs: seq<Child>, n: nat)
    requires k in lvl && 0 < n < |cs|
    requires LevelOK(lvl[k := cs], items)
    ensures
      var rk := cs[n].index;
      && rk !in lvl && rk != k && rk != []
      && Covers(lvl.Keys, k, rk)
      && LevelOK(lvl[rk := cs[n..]][k := cs[..n]], items)
  {
    hide LevelOK;
    var lvl' := lvl[k := cs];
    var rk := cs[n].index;
    SplitCovers(lvl', items, k, n);
    SplitOK(lvl', items, k, n);
    assert lvl'.Keys == lvl.Keys;
    assert lvl[rk := cs[n..]][k := cs[..n]] == SplitLevel(lvl', k, n);
  }
}
