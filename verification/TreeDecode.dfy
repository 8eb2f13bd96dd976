/** Reading the tree's nodes and leaves back from their wire form. */
module TreeDecode {
  import opened Options
  import opened KeyOrder
  import opened Varint
  import opened SumTreeLevel
  import opened TreeCodec
  import Text = DecimalText

  // ---- unknown fields ----

  /** A varint as a signed 64-bit length. */
  function ReadLength(d: Bytes, i: nat): Result<(nat, nat)> {
    match Read(d, i)
    case Ok((v, j)) => if v >= TWO_63 then Err(InvalidLength) else Ok((v, j))
    case Err(e) => Err(e)
  }

  /** `skipTree`: where the field that starts at `i` ends, with groups nested `depth` deep. */
  function Skip(d: Bytes, i: nat, depth: nat): (r: Result<nat>)
    ensures r.Ok? ==> r.value > i
    decreases |d| - i
  {
    if i >= |d| then Err(UnexpectedEOF)
    else
      match Read(d, i)
      case Err(e) => Err(e)
      case Ok((wire, j)) =>
        ReadProgress(d, i, 0);
        if wire % 8 == 0 then
          (match Read(d, j)
           case Err(e) => Err(e)
           case Ok((_, k)) => ReadProgress(d, j, 0); SkipOn(d, i, k, depth))
        else if wire % 8 == 1 then SkipOn(d, i, j + 8, depth)
        else if wire % 8 == 2 then
          (match ReadLength(d, j)
           case Err(e) => Err(e)
           case Ok((n, k)) => ReadProgress(d, j, 0); SkipOn(d, i, k + n, depth))
        else if wire % 8 == 3 then SkipOn(d, i, j, depth + 1)
        else if wire % 8 == 4 then if depth == 0 then Err(UnexpectedEndOfGroup) else SkipOn(d, i, j, depth - 1)
        else if wire % 8 == 5 then SkipOn(d, i, j + 4, depth)
        else Err(IllegalWireType)
  }

  /** The end of one round: an index past the 64-bit range is negative, and depth zero is the end. */
  function SkipOn(d: Bytes, i: nat, next: nat, depth: nat): (r: Result<nat>)
    requires i < |d| && next > i
    ensures r.Ok? ==> r.value > i
    decreases |d| - i, 0
  {
    if next >= TWO_63 then Err(InvalidLength)
    else if depth == 0 then Ok(next)
    else Skip(d, next, depth)
  }

  // ---- the parts of a field ----

  /** A tag: field number, wire type, and where it ends. */
  datatype Tag = Tag(field: int, wireType: nat, next: nat)

  /** Conversion to a signed 32-bit integer. */
  function Int32(v: nat): int {
    var low := v % 0x1_0000_0000;
    if low < 0x8000_0000 then low else low - 0x1_0000_0000
  }

  function ReadTag(d: Bytes, i: nat): (r: Result<Tag>)
    ensures r.Ok? ==> i < r.value.next <= |d|
  {
    match Read(d, i)
    case Err(e) => Err(e)
    case Ok((wire, j)) =>
      ReadProgress(d, i, 0);
      if wire % 8 == 4 then Err(EndGroupForNonGroup)
      else if Int32(wire / 8) <= 0 then Err(IllegalTag)
      else Ok(Tag(Int32(wire / 8), wire % 8, j))
  }

  /** Where a length-delimited payload begins and ends. */
  function ReadPayload(d: Bytes, tag: Tag): (r: Result<(nat, nat)>)
    ensures r.Ok? ==> tag.next < r.value.0 <= r.value.1 <= |d|
  {
    if tag.wireType != 2 then Err(WrongWireType)
    else
      match ReadLength(d, tag.next)
      case Err(e) => Err(e)
      case Ok((n, k)) =>
        ReadProgress(d, tag.next, 0);
        if k + n >= TWO_63 then Err(InvalidLength)
        else if k + n > |d| then Err(UnexpectedEOF)
        else Ok((k, k + n))
  }

  /** Where a field that is not known ends. */
  function SkipField(d: Bytes, i: nat): (r: Result<nat>)
    requires i < |d|
    ensures r.Ok? ==> i < r.value <= |d|
  {
    match Skip(d[i..], 0, 0)
    case Err(e) => Err(e)
    case Ok(n) =>
      if i + n >= TWO_63 then Err(InvalidLength)
      else if i + n > |d| then Err(UnexpectedEOF)
      else Ok(i + n)
  }

  // ---- messages ----

  /** A child as it is read: fields that were not there are empty. */
  datatype ReadChild = ReadChild(index: Key, acc: Option<int>)

  const NO_CHILD: ReadChild := ReadChild([], None)

  function DecodeChild(d: Bytes, i: nat, m: ReadChild): Result<ReadChild>
    decreases |d| - i
  {
    if i >= |d| then Ok(m)
    else
      match ReadTag(d, i)
      case Err(e) => Err(e)
      case Ok(tag) =>
        if tag.field == 1 then
          (match ReadPayload(d, tag)
           case Err(e) => Err(e)
           case Ok((k, post)) => DecodeChild(d, post, m.(index := d[k..post])))
        else if tag.field == 2 then
          (match ReadPayload(d, tag)
           case Err(e) => Err(e)
           case Ok((k, post)) =>
             match ReadInt(d[k..post], m.acc)
             case Err(e) => Err(e)
             case Ok(v) => DecodeChild(d, post, m.(acc := v)))
        else
          (match SkipField(d, i)
           case Err(e) => Err(e)
           case Ok(next) => DecodeChild(d, next, m))
  }

  function DecodeNode(d: Bytes, i: nat, m: seq<ReadChild>): Result<seq<ReadChild>>
    decreases |d| - i
  {
    if i >= |d| then Ok(m)
    else
      match ReadTag(d, i)
      case Err(e) => Err(e)
      case Ok(tag) =>
        if tag.field == 1 then
          (match ReadPayload(d, tag)
           case Err(e) => Err(e)
           case Ok((k, post)) =>
             match DecodeChild(d[k..post], 0, NO_CHILD)
             case Err(e) => Err(e)
             case Ok(c) => DecodeNode(d, post, m + [c]))
        else
          (match SkipField(d, i)
           case Err(e) => Err(e)
           case Ok(next) => DecodeNode(d, next, m))
  }

  function DecodeLeaf(d: Bytes, i: nat, m: Option<ReadChild>): Result<Option<ReadChild>>
    decreases |d| - i
  {
    if i >= |d| then Ok(m)
    else
      match ReadTag(d, i)
      case Err(e) => Err(e)
      case Ok(tag) =>
        if tag.field == 1 then
          (match ReadPayload(d, tag)
           case Err(e) => Err(e)
           case Ok((k, post)) =>
             match DecodeChild(d[k..post], 0, if m.None? then NO_CHILD else m.value)
             case Err(e) => Err(e)
             case Ok(c) => DecodeLeaf(d, post, Some(c)))
        else
          (match SkipField(d, i)
           case Err(e) => Err(e)
           case Ok(next) => DecodeLeaf(d, next, m))
  }

  // ---- the loops ----

  /** `skipTree` */
  method SkipTree(d: Bytes) returns (r: Result<nat>)
    ensures r == Skip(d, 0, 0)
  {
    hide ReadFrom, ReadLength;
    var i: nat, depth: nat := 0, 0;
    while i < |d|
      invariant Skip(d, i, depth) == Skip(d, 0, 0)
      decreases |d| - i
    {
      var wire := Read(d, i);
      if wire.Err? { return Err(wire.error); }
      ReadProgress(d, i, 0);
      var next := wire.value.1;
      match wire.value.0 % 8 {
        case 0 =>
          var v := Read(d, next);
          if v.Err? { return Err(v.error); }
          ReadProgress(d, next, 0);
          next := v.value.1;
        case 1 => next := next + 8;
        case 2 =>
          var n := ReadLength(d, next);
          if n.Err? { return Err(n.error); }
          LengthProgress(d, next);
          next := n.value.1 + n.value.0;
        case 3 => depth := depth + 1;
        case 4 =>
          if depth == 0 { return Err(UnexpectedEndOfGroup); }
          depth := depth - 1;
        case 5 => next := next + 4;
        case _ => return Err(IllegalWireType);
      }
      if next >= TWO_63 { return Err(InvalidLength); }
      if depth == 0 { return Ok(next); }
      i := next;
    }
    return Err(UnexpectedEOF);
  }

  lemma LengthProgress(d: Bytes, i: nat)
    requires ReadLength(d, i).Ok?
    ensures i < ReadLength(d, i).value.1 <= |d|
  {
    ReadProgress(d, i, 0);
  }

  /** `Child.Unmarshal` */
  method UnmarshalChild(d: Bytes, start: ReadChild) returns (r: Result<ReadChild>)
    ensures r == DecodeChild(d, 0, start)
  {
    hide ReadTag, ReadPayload, SkipField, ReadInt;
    var i: nat, m := 0, start;
    while i < |d|
      invariant DecodeChild(d, i, m) == DecodeChild(d, 0, start)
      decreases |d| - i
    {
      var tag := ReadTag(d, i);
      if tag.Err? { return Err(tag.error); }
      if tag.value.field == 1 || tag.value.field == 2 {
        var p := ReadPayload(d, tag.value);
        if p.Err? { return Err(p.error); }
        var payload := d[p.value.0..p.value.1];
        if tag.value.field == 1 {
          m := m.(index := payload);
        } else {
          var v := ReadInt(payload, m.acc);
          if v.Err? { return Err(v.error); }
          m := m.(acc := v.value);
        }
        i := p.value.1;
      } else {
        var next := SkipField(d, i);
        if next.Err? { return Err(next.error); }
        i := next.value;
      }
    }
    return Ok(m);
  }

  /** `Node.Unmarshal` */
  method Unmarshal(d: Bytes) returns (r: Result<seq<ReadChild>>)
    ensures r == DecodeNode(d, 0, [])
  {
    hide ReadTag, ReadPayload, SkipField, DecodeChild;
    var i: nat, m := 0, [];
    while i < |d|
      invariant DecodeNode(d, i, m) == DecodeNode(d, 0, [])
      decreases |d| - i
    {
      var tag := ReadTag(d, i);
      if tag.Err? { return Err(tag.error); }
      if tag.value.field == 1 {
        var p := ReadPayload(d, tag.value);
        if p.Err? { return Err(p.error); }
        var c := UnmarshalChild(d[p.value.0..p.value.1], NO_CHILD);
        if c.Err? { return Err(c.error); }
        m := m + [c.value];
        i := p.value.1;
      } else {
        var next := SkipField(d, i);
        if next.Err? { return Err(next.error); }
        i := next.value;
      }
    }
    return Ok(m);
  }

  /** `Leaf.Unmarshal` */
  method UnmarshalLeaf(d: Bytes) returns (r: Result<Option<ReadChild>>)
    ensures r == DecodeLeaf(d, 0, None)
  {
    hide ReadTag, ReadPayload, SkipField, DecodeChild;
    var i: nat, m := 0, None;
    while i < |d|
      invariant DecodeLeaf(d, i, m) == DecodeLeaf(d, 0, None)
      decreases |d| - i
    {
      var tag := ReadTag(d, i);
      if tag.Err? { return Err(tag.error); }
      if tag.value.field == 1 {
        var p := ReadPayload(d, tag.value);
        if p.Err? { return Err(p.error); }
        var c := UnmarshalChild(d[p.value.0..p.value.1], if m.None? then NO_CHILD else m.value);
        if c.Err? { return Err(c.error); }
        m := Some(c.value);
        i := p.value.1;
      } else {
        var next := SkipField(d, i);
        if next.Err? { return Err(next.error); }
        i := next.value;
      }
    }
    return Ok(m);
  }

  // ---- round trips ----

  /** A field with a one-byte tag is taken apart as it was put together. */
  lemma FieldBack(pre: Bytes, tag: Byte, payload: Bytes, post: Bytes)
    requires 8 <= tag < 128 && tag % 8 == 2
    requires |pre + Field(tag, payload) + post| < TWO_63
    ensures
      var d := pre + Field(tag, payload) + post;
      var t := Tag(tag as int / 8, 2, |pre| + 1);
      var end := |pre| + |Field(tag, payload)|;
      && ReadTag(d, |pre|) == Ok(t)
      && ReadPayload(d, t) == Ok((end - |payload|, end))
      && d[end - |payload|..end] == payload
  {
    hide Read, Encode;
    var d := pre + Field(tag, payload) + post;
    TagByte(tag);
    ReadBack(pre, tag as int, Encode(|payload|) + payload + post);
    assert d == pre + [tag] + (Encode(|payload|) + payload + post);
    ReadBack(pre + [tag], |payload|, payload + post);
    assert d == (pre + [tag]) + Encode(|payload|) + (payload + post);
  }

  lemma TagByte(tag: Byte)
    requires tag < 128
    ensures Encode(tag as int) == [tag]
  {
  }

  /** A child is read back as it was written. */
  lemma ChildBack(c: Child)
    requires IntFits(c.acc) && |EncodeChild(c)| < TWO_63
    ensures DecodeChild(EncodeChild(c), 0, NO_CHILD) == Ok(ReadChild(c.index, Some(c.acc)))
  {
    hide ReadTag, ReadPayload, SkipField, ReadInt, IntBytes, Field, IntFits;
    var d, text := EncodeChild(c), IntBytes(c.acc);
    var first := if |c.index| > 0 then Field(TAG1, c.index) else [];
    ReadIntBack(c.acc, None);
    assert d == first + Field(TAG2, text) + [];
    FieldBack(first, TAG2, text, []);
    var m := NO_CHILD.(index := c.index);
    assert DecodeChild(d, |first|, m) == Ok(ReadChild(c.index, Some(c.acc))) by {
      assert DecodeChild(d, |d|, m.(acc := Some(c.acc))) == Ok(m.(acc := Some(c.acc)));
    }
    if |c.index| > 0 {
      assert d == [] + Field(TAG1, c.index) + Field(TAG2, text);
      FieldBack([], TAG1, c.index, Field(TAG2, text));
    }
  }

  function AsRead(cs: seq<Child>): seq<ReadChild> {
    seq(|cs|, i requires 0 <= i < |cs| => ReadChild(cs[i].index, Some(cs[i].acc)))
  }

  lemma {:induction false} NodeBackFrom(pre: Bytes, cs: seq<Child>, m: seq<ReadChild>)
    requires forall i | 0 <= i < |cs| :: IntFits(cs[i].acc)
    requires |pre + EncodeNode(cs)| < TWO_63
    ensures DecodeNode(pre + EncodeNode(cs), |pre|, m) == Ok(m + AsRead(cs))
    decreases |cs|
  {
    hide ReadTag, ReadPayload, SkipField, Field, DecodeChild, EncodeChild;
    var d := pre + EncodeNode(cs);
    if cs == [] {
      assert m + AsRead(cs) == m;
    } else {
      var c, f, rest := cs[0], Field(TAG1, EncodeChild(cs[0])), EncodeNode(cs[1..]);
      assert d == pre + f + rest;
      assert d == (pre + f) + rest;
      FieldBack(pre, TAG1, EncodeChild(c), rest);
      ChildBack(c);
      var r := ReadChild(c.index, Some(c.acc));
      NodeBackFrom(pre + f, cs[1..], m + [r]);
      assert m + [r] + AsRead(cs[1..]) == m + AsRead(cs);
    }
  }

  /** A node is read back as it was written. */
  lemma NodeBack(cs: seq<Child>)
    requires forall i | 0 <= i < |cs| :: IntFits(cs[i].acc)
    requires |EncodeNode(cs)| < TWO_63
    ensures DecodeNode(EncodeNode(cs), 0, []) == Ok(AsRead(cs))
  {
    hide DecodeNode, EncodeNode;
    NodeBackFrom([], cs, []);
    assert [] + EncodeNode(cs) == EncodeNode(cs) && [] + AsRead(cs) == AsRead(cs);
  }

  /** A leaf is read back as it was written. */
  lemma LeafBack(leaf: Option<Child>)
    requires leaf.Some? ==> IntFits(leaf.value.acc)
    requires |EncodeLeaf(leaf)| < TWO_63
    ensures DecodeLeaf(EncodeLeaf(leaf), 0, None) ==
            Ok(if leaf.None? then None else Some(ReadChild(leaf.value.index, Some(leaf.value.acc))))
  {
    hide ReadTag, ReadPayload, SkipField, Field, DecodeChild, EncodeChild;
    if leaf.Some? {
      var d := EncodeLeaf(leaf);
      assert d == [] + Field(TAG1, EncodeChild(leaf.value)) + [];
      FieldBack([], TAG1, EncodeChild(leaf.value), []);
      ChildBack(leaf.value);
      var m := Some(ReadChild(leaf.value.index, Some(leaf.value.acc)));
      assert DecodeLeaf(d, |d|, m) == Ok(m);
    }
  }
}
