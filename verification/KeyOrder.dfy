/**
 Byte-string keys under the order of `bytes.Compare`.

 `Rank` embeds that order into the reals, so that every fact about the order of keys is a
 fact of linear arithmetic. `CompareIsByteOrder` ties the embedding to the byte-wise order.
 */
module KeyOrder {
  newtype Byte = b: int | 0 <= b < 256
  type Key = seq<Byte>

  /** Byte-wise lexicographic order; a proper prefix comes first. */
  predicate Less(a: Key, b: Key) {
    |b| > 0 && (|a| == 0 || a[0] < b[0] || (a[0] == b[0] && Less(a[1..], b[1..])))
  }

  /** Reads a key as the digits of a base-257 fraction in which no digit is zero. */
  ghost function Fraction(k: Key): (r: real)
    ensures 0.0 <= r < 1.0
    ensures r == 0.0 <==> k == []
  {
    if k == [] then 0.0 else (1.0 + k[0] as real + Fraction(k[1..])) / 257.0
  }

  lemma {:induction false} FractionEmbeds(a: Key, b: Key)
    ensures Less(a, b) <==> Fraction(a) < Fraction(b)
    ensures Fraction(a) == Fraction(b) ==> a == b
  {
    if a != [] && b != [] {
      FractionEmbeds(a[1..], b[1..]);
      if a[0] == b[0] && a[1..] == b[1..] {
        assert a == [a[0]] + a[1..] == b;
      }
    }
  }

  /** Names a pair of keys, to say which instances of `Embeds` a proof wants. */
  ghost predicate Pair(a: Key, b: Key) { true }

  ghost predicate Embeds(f: Key -> real) {
    forall a, b {:trigger Pair(a, b)} ::
      && Pair(a, b)
      && (Less(a, b) <==> f(a) < f(b))
      && (f(a) == f(b) ==> a == b)
      && 0.0 <= f(a)
      && (f(a) == 0.0 <==> a == [])
  }

  /** Some embedding of the order; which one does not matter. */
  ghost function Embedding(): (f: Key -> real)
    ensures Embeds(f)
  {
    assert exists f :: Embeds(f) by {
      forall a, b
        ensures Less(a, b) <==> Fraction(a) < Fraction(b)
        ensures Fraction(a) == Fraction(b) ==> a == b
      {
        FractionEmbeds(a, b);
      }
      assert Embeds((k: Key) => Fraction(k));
    }
    var f :| Embeds(f);
    f
  }

  ghost function KeyAt(r: real): Key {
    if exists k :: Embedding()(k) == r then var k :| Embedding()(k) == r; k else []
  }

  /** The position of a key in the order; the empty key is the least. */
  ghost function Rank(k: Key): (r: real)
    ensures KeyAt(r) == k
    ensures 0.0 <= r
    ensures r == 0.0 <==> k == []
  {
    assert KeyAt(Embedding()(k)) == k by {
      var k' := KeyAt(Embedding()(k));
      assert Pair(k', k);
    }
    assert Pair(k, k);
    Embedding()(k)
  }

  /** `bytes.Compare`: the sign of the comparison of the two ranks. */
  function Compare(a: Key, b: Key): (c: int)
    ensures c == -1 <==> Rank(a) < Rank(b)
    ensures c == 0 <==> a == b
    ensures c == 1 <==> Rank(a) > Rank(b)
  {
    CompareIsByteOrder(a, b);
    CompareIsByteOrder(b, a);
    if a == b then 0 else if Less(a, b) then -1 else 1
  }

  /** The order of ranks is the byte-wise order. */
  lemma CompareIsByteOrder(a: Key, b: Key)
    ensures Rank(a) < Rank(b) <==> Less(a, b)
  {
    assert Pair(a, b);
  }
}
