/** The store key of a node: how the byte order of store keys lists the levels and their nodes. */
module NodeKey {
  import opened KeyOrder
  import opened SumTreeLevel
  import opened SumTreeTower

  /** "node/" */
  const NODE_KEY_PREFIX: Key := [110, 111, 100, 101, 47]

  /** `nodeKey`: the prefix, the level in two big-endian bytes, the key. */
  function StoreKey(level: nat, key: Key): Key
    requires level < 0x1_0000
  {
    NODE_KEY_PREFIX + [(level / 256) as Byte, (level % 256) as Byte] + key
  }

  lemma {:induction false} LessUnderPrefix(p: Key, a: Key, b: Key)
    ensures Less(p + a, p + b) <==> Less(a, b)
  {
    if p == [] {
      assert p + a == a && p + b == b;
    } else {
      LessUnderPrefix(p[1..], a, b);
      assert (p + a)[1..] == p[1..] + a && (p + b)[1..] == p[1..] + b;
    }
  }

  lemma LessTwoBytes(x: Byte, y: Byte, a: Key, x': Byte, y': Byte, b: Key)
    ensures Less([x, y] + a, [x', y'] + b) <==> x < x' || (x == x' && (y < y' || (y == y' && Less(a, b))))
  {
    var s, t := [x, y] + a, [x', y'] + b;
    assert s[1..] == [y] + a && t[1..] == [y'] + b;
    assert s[1..][1..] == a && t[1..][1..] == b;
  }

  /** Store keys are ordered by level, and within a level by key. */
  lemma StoreKeyOrder(l: nat, k: Key, l': nat, k': Key)
    requires l < 0x1_0000 && l' < 0x1_0000
    ensures Less(StoreKey(l, k), StoreKey(l', k')) <==> l < l' || (l == l' && Less(k, k'))
    ensures StoreKey(l, k) == StoreKey(l', k') ==> l == l' && k == k'
  {
    var tail := [(l / 256) as Byte, (l % 256) as Byte] + k;
    var tail' := [(l' / 256) as Byte, (l' % 256) as Byte] + k';
    assert StoreKey(l, k) == NODE_KEY_PREFIX + tail && StoreKey(l', k') == NODE_KEY_PREFIX + tail';
    LessUnderPrefix(NODE_KEY_PREFIX, tail, tail');
    LessTwoBytes(tail[0], tail[1], k, tail'[0], tail'[1], k');
    if StoreKey(l, k) == StoreKey(l', k') {
      assert tail == StoreKey(l, k)[5..] == StoreKey(l', k')[5..] == tail';
      assert k == tail[2..] == tail'[2..] == k';
      assert tail[0] == tail'[0] && tail[1] == tail'[1];
    }
  }

  /** What the reverse iterator from `root` meets first: the one node of the highest level. */
  lemma RootIsLast(nodes: Nodes, top: nat, leaves: map<Key, int>, l: nat, k: Key)
    requires 1 <= top < 0x1_0000 && Tower(nodes, 1, top, leaves)
    requires l == 0 || k in LevelAt(nodes, l)
    ensures l < 0x1_0000
    ensures StoreKey(l, k) == StoreKey(top, []) || Less(StoreKey(l, k), StoreKey(top, []))
    ensures StoreKey(l, k) == StoreKey(top, []) <==> l == top
  {
    hide LevelOK;
    TowerTop(nodes, 1, top, leaves);
    assert l > top ==> LevelAt(nodes, l) == map[];
    StoreKeyOrder(l, k, top, []);
  }

  /** What the reverse iterator from `leftSibling` meets first, in terms of ranks. */
  lemma SiblingOrder(level: nat, a: Key, b: Key)
    requires level < 0x1_0000
    ensures Less(StoreKey(level, a), StoreKey(level, b)) <==> Rank(a) < Rank(b)
  {
    StoreKeyOrder(level, a, level, b);
    CompareIsByteOrder(a, b);
  }
}
