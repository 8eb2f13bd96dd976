/** The wire form of the tree's nodes and leaves. */
module TreeCodec {
  import opened Options
  import opened Binary
  import opened KeyOrder
  import opened Varint
  import opened SumTreeLevel
  import Text = DecimalText

  // ---- integers as text ----

  const MAX_INT_BITS: nat := 256

  /** Integers have at most 256 bits. */
  predicate IntFits(n: int) {
    BitLen(Abs(n)) <= MAX_INT_BITS
  }

  predicate Ascii(s: string) {
    forall i | 0 <= i < |s| :: s[i] as int < 256
  }

  function ToBytes(s: string): (b: Bytes)
    requires Ascii(s)
    ensures |b| == |s|
  {
    seq(|s|, i requires 0 <= i < |s| => s[i] as int as Byte)
  }

  function ToText(b: Bytes): (s: string)
    ensures Ascii(s) && |s| == |b|
  {
    seq(|b|, i requires 0 <= i < |b| => b[i] as int as char)
  }

  lemma TextOfBytes(s: string)
    requires Ascii(s)
    ensures ToText(ToBytes(s)) == s
  {
  }

  lemma IntTextAscii(n: int)
    ensures Ascii(Text.IntText(n)) && |Text.IntText(n)| >= 1
  {
    var ds := Text.Decimal(if n < 0 then -n else n);
    forall i | 0 <= i < |ds| ensures ds[i] as int < 256 { assert Text.IsDigit(ds[i]); }
  }

  /** The accumulation's own marshalling: its decimal text. */
  function IntBytes(n: int): (b: Bytes)
    ensures |b| >= 1
  {
    IntTextAscii(n);
    ToBytes(Text.IntText(n))
  }

  /** Reading it back; no bytes at all leave what was there. */
  function ReadInt(b: Bytes, before: Option<int>): Result<Option<int>> {
    if b == [] then Ok(before)
    else
      match Text.SetString(ToText(b))
      case Some(v) => if IntFits(v) then Ok(Some(v)) else Err(BadInteger)
      case None => Err(BadInteger)
  }

  lemma ReadIntBack(n: int, before: Option<int>)
    requires IntFits(n)
    ensures ReadInt(IntBytes(n), before) == Ok(Some(n))
  {
    hide IntFits;
    IntTextAscii(n);
    TextOfBytes(Text.IntText(n));
    Text.IntTextBack(n);
  }

  /** Exactly which bytes are read as an integer: an optional sign and digits, whose number has at most 256 bits. */
  lemma ReadIntExactly(b: Bytes, before: Option<int>, v: int)
    requires b != []
    ensures ReadInt(b, before) == Ok(Some(v)) <==>
            IntFits(v) && exists sign, ds ::
              && Text.AllDigits(ds) && ds != "" && (sign == "" || sign == "+" || sign == "-") && ToText(b) == sign + ds
              && v == if sign == "-" then 0 - Text.DigitsValue(ds) else Text.DigitsValue(ds)
    ensures ReadInt(b, before) != Ok(None)
  {
    hide IntFits, Text.DigitsValue;
    var s := ToText(b);
    if sign, ds :| Text.AllDigits(ds) && ds != "" && (sign == "" || sign == "+" || sign == "-") && s == sign + ds {
      Text.SetSign(sign, ds);
    }
    if Text.SetString(s).Some? {
      var signed := s[0] == '+' || s[0] == '-';
      var sign, ds := if signed then [s[0]] else "", if signed then s[1..] else s;
      assert s == sign + ds;
    }
    forall sign, ds | Text.AllDigits(ds) && ds != "" && (sign == "" || sign == "+" || sign == "-") && s == sign + ds
      ensures Text.SetString(s) == Some(if sign == "-" then 0 - Text.DigitsValue(ds) else Text.DigitsValue(ds))
    {
      Text.SetSign(sign, ds);
    }
  }

  // ---- the wire form ----

  /** A length-delimited field: tag byte, length, payload. */
  function Field(tag: Byte, payload: Bytes): (b: Bytes)
    ensures |b| == 1 + |Encode(|payload|)| + |payload|
  {
    [tag] + Encode(|payload|) + payload
  }

  const TAG1: Byte := 0x0a
  const TAG2: Byte := 0x12

  function EncodeChild(c: Child): Bytes {
    (if |c.index| > 0 then Field(TAG1, c.index) else []) + Field(TAG2, IntBytes(c.acc))
  }

  function EncodeNode(cs: seq<Child>): Bytes {
    if cs == [] then [] else Field(TAG1, EncodeChild(cs[0])) + EncodeNode(cs[1..])
  }

  function EncodeLeaf(leaf: Option<Child>): Bytes {
    if leaf.None? then [] else Field(TAG1, EncodeChild(leaf.value))
  }

  // ---- sizes ----

  /** `Child.Size` */
  method ChildSize(c: Child) returns (n: nat)
    ensures n == |EncodeChild(c)|
  {
    hide Encode, IntBytes, Sov;
    n := 0;
    var l := |c.index|;
    SovIsSize(l);
    if l > 0 {
      n := n + 1 + l + Sov(l);
    }
    l := |IntBytes(c.acc)|;
    SovIsSize(l);
    n := n + 1 + l + Sov(l);
  }

  lemma NodeNext(cs: seq<Child>, i: nat)
    requires i < |cs|
    ensures EncodeNode(cs[i..]) == Field(TAG1, EncodeChild(cs[i])) + EncodeNode(cs[i + 1..])
  {
    hide EncodeChild, Field;
    assert cs[i..][1..] == cs[i + 1..];
  }

  /** `Node.Size` */
  method NodeSize(cs: seq<Child>) returns (n: nat)
    ensures n == |EncodeNode(cs)|
  {
    hide Encode, Sov, EncodeChild, EncodeNode, Field;
    n := 0;
    assert cs[0..] == cs;
    for i := 0 to |cs|
      invariant n + |EncodeNode(cs[i..])| == |EncodeNode(cs)|
    {
      NodeNext(cs, i);
      var l := ChildSize(cs[i]);
      SovIsSize(l);
      n := n + 1 + l + Sov(l);
    }
    NodeEmpty();
    assert cs[|cs|..] == [];
  }

  lemma NodeEmpty()
    ensures EncodeNode([]) == []
  {
  }

  // ---- writing backwards ----

  /** `buf` differs from `before` only in that `b` now ends at `end`. */
  ghost predicate Written(before: Bytes, after: Bytes, end: nat, b: Bytes) {
    && |b| <= end <= |before|
    && after == before[..end - |b|] + b + before[end..]
  }

  /** Writing `a` in front of what was just written. */
  lemma WrittenAgain(x: Bytes, y: Bytes, z: Bytes, end: nat, b: Bytes, a: Bytes)
    requires Written(x, y, end, b) && |a| + |b| <= end && Written(y, z, end - |b|, a)
    ensures Written(x, z, end, a + b)
  {
    assert y[..end - |b| - |a|] == x[..end - |b| - |a|];
    assert y[end - |b|..] == b + x[end..];
  }

  lemma WrittenNothing(x: Bytes, end: nat)
    requires end <= |x|
    ensures Written(x, x, end, [])
  {
    assert x == x[..end] + [] + x[end..];
  }

  /** `copy` of some bytes so that they end at `end`. */
  method Put(buf: array<Byte>, end: nat, b: Bytes) returns (i: nat)
    requires |b| <= end <= buf.Length
    modifies buf
    ensures i == end - |b| && Written(old(buf[..]), buf[..], end, b)
  {
    i := end - |b|;
    forall k | 0 <= k < |b| {
      buf[i + k] := b[k];
    }
  }

  method PutVarint(buf: array<Byte>, end: nat, v: nat) returns (i: nat)
    requires |Encode(v)| <= end <= buf.Length
    modifies buf
    ensures i == end - |Encode(v)| && Written(old(buf[..]), buf[..], end, Encode(v))
  {
    hide Encode;
    i := EncodeVarint(buf, end, v);
  }

  /** Length and tag in front of a payload that has just been written. */
  method PutHeader(buf: array<Byte>, end: nat, tag: Byte, size: nat, ghost payload: Bytes, ghost before: Bytes) returns (i: nat)
    requires size == |payload| && |Field(tag, payload)| <= end <= buf.Length
    requires |before| == buf.Length && Written(before, buf[..], end, payload)
    modifies buf
    ensures i == end - |Field(tag, payload)| && Written(before, buf[..], end, Field(tag, payload))
  {
    hide Encode, Written;
    ghost var x := buf[..];
    i := PutVarint(buf, end - size, size);
    ghost var y := buf[..];
    WrittenAgain(before, x, y, end, payload, Encode(|payload|));
    i := Put(buf, i, [tag]);
    WrittenAgain(before, y, buf[..], end, Encode(|payload|) + payload, [tag]);
    assert [tag] + (Encode(|payload|) + payload) == Field(tag, payload);
  }

  /** `Child.MarshalToSizedBuffer`, into the part of the buffer that ends at `end`. */
  method MarshalChild(buf: array<Byte>, end: nat, c: Child) returns (n: nat)
    requires |EncodeChild(c)| <= end <= buf.Length
    modifies buf
    ensures n == |EncodeChild(c)| && Written(old(buf[..]), buf[..], end, EncodeChild(c))
  {
    hide Encode, Written, IntBytes, Field;
    ghost var before := buf[..];
    var text := IntBytes(c.acc);
    var i := Put(buf, end, text);
    i := PutHeader(buf, end, TAG2, |text|, text, before);
    if |c.index| > 0 {
      ghost var x := buf[..];
      var j := Put(buf, i, c.index);
      i := PutHeader(buf, i, TAG1, |c.index|, c.index, x);
      WrittenAgain(before, x, buf[..], end, Field(TAG2, text), Field(TAG1, c.index));
    } else {
      assert [] + Field(TAG2, text) == Field(TAG2, text);
    }
    n := end - i;
  }

  /** `Node.MarshalToSizedBuffer`: the last child is written first. */
  method MarshalNode(buf: array<Byte>, cs: seq<Child>) returns (n: nat)
    requires |EncodeNode(cs)| <= buf.Length
    modifies buf
    ensures n == |EncodeNode(cs)| && Written(old(buf[..]), buf[..], buf.Length, EncodeNode(cs))
  {
    hide Encode, Written, EncodeChild, Field, EncodeNode;
    ghost var before := buf[..];
    var i, k := buf.Length, |cs|;
    WrittenNothing(before, buf.Length);
    NodeEmpty();
    assert cs[|cs|..] == [];
    while k > 0
      invariant 0 <= k <= |cs|
      invariant |EncodeNode(cs[k..])| <= |EncodeNode(cs)| && i == buf.Length - |EncodeNode(cs[k..])|
      invariant Written(before, buf[..], buf.Length, EncodeNode(cs[k..]))
    {
      k := k - 1;
      NodeNext(cs, k);
      NodeSuffix(cs, k);
      ghost var x := buf[..];
      var end := i;
      var size := MarshalChild(buf, end, cs[k]);
      i := PutHeader(buf, end, TAG1, size, EncodeChild(cs[k]), x);
      WrittenAgain(before, x, buf[..], buf.Length, EncodeNode(cs[k + 1..]), Field(TAG1, EncodeChild(cs[k])));
    }
    assert cs[0..] == cs;
    n := buf.Length - i;
  }

  lemma {:induction false} NodeSuffix(cs: seq<Child>, k: nat)
    requires k <= |cs|
    ensures |EncodeNode(cs[k..])| <= |EncodeNode(cs)|
  {
    hide EncodeChild, Field;
    if k == 0 {
      assert cs[0..] == cs;
    } else {
      NodeSuffix(cs, k - 1);
      NodeNext(cs, k - 1);
    }
  }

  /** `Node.Marshal`: a buffer of exactly the right size is filled to the first byte. */
  method Marshal(cs: seq<Child>) returns (b: Bytes)
    ensures b == EncodeNode(cs)
  {
    hide EncodeNode;
    var size := NodeSize(cs);
    var buf := new Byte[size];
    var n := MarshalNode(buf, cs);
    b := buf[..n];
  }

  /** `Leaf.Marshal` */
  method MarshalLeaf(leaf: Option<Child>) returns (b: Bytes)
    ensures b == EncodeLeaf(leaf)
  {
    hide EncodeChild, Encode, Sov, Field;
    if leaf.None? {
      return [];
    }
    var l := ChildSize(leaf.value);
    SovIsSize(l);
    var buf := new Byte[1 + l + Sov(l)];
    ghost var before := buf[..];
    var n := MarshalChild(buf, buf.Length, leaf.value);
    var i := PutHeader(buf, buf.Length, TAG1, n, EncodeChild(leaf.value), before);
    b := buf[i..];
  }
}
