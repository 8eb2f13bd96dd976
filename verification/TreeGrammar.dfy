/** Exactly which bytes the decoders of the tree's messages accept, and as what. */
module TreeGrammar {
  import opened Options
  import opened KeyOrder
  import opened Varint
  import opened SumTreeLevel
  import opened TreeCodec
  import opened TreeDecode

  // ---- fields as they may be written ----

  /** The values that the wire types stand for; groups are the old way to nest fields. Numbers are any varints. */
  datatype Raw =
    | Number(b: Bytes) | Eight(b: Bytes) | Four(b: Bytes)
    | Delimited(len: Bytes, payload: Bytes) | Group(fields: Fields, end: Bytes)

  datatype Fields = Done | More(tag: Bytes, value: Raw, rest: Fields)

  function WireType(u: Raw): nat {
    match u
    case Number(_) => 0
    case Eight(_) => 1
    case Delimited(_, _) => 2
    case Group(_, _) => 3
    case Four(_) => 5
  }

  predicate RawOK(u: Raw)
    decreases u, 0
  {
    match u
    case Number(b) => IsVarint(b)
    case Eight(b) => |b| == 8
    case Delimited(len, payload) => IsVarint(len) && Wire(len) == |payload|
    case Group(fs, end) => FieldsOK(fs) && IsVarint(end) && Wire(end) % 8 == 4
    case Four(b) => |b| == 4
  }

  predicate FieldsOK(fs: Fields) {
    fs.More? ==> FieldOK(fs.tag, fs.value) && FieldsOK(fs.rest)
  }

  predicate FieldOK(tag: Bytes, u: Raw)
    decreases u, 1
  {
    IsVarint(tag) && Wire(tag) % 8 == WireType(u) && RawOK(u)
  }

  function ValueBytes(u: Raw): Bytes
    decreases u, 0
  {
    match u
    case Number(b) => b
    case Eight(b) => b
    case Delimited(len, payload) => len + payload
    case Group(fs, end) => FieldsBytes(fs) + end
    case Four(b) => b
  }

  function FieldsBytes(fs: Fields): Bytes {
    if fs.Done? then [] else FieldBytes(fs.tag, fs.value) + FieldsBytes(fs.rest)
  }

  function FieldBytes(tag: Bytes, u: Raw): Bytes
    decreases u, 1
  {
    tag + ValueBytes(u)
  }

  // ---- skipping a field that is there ----

  /** One round of the loop that skips, once the tag is read. */
  lemma SkipRound(d: Bytes, i: nat, depth: nat, wire: nat, j: nat)
    requires i < |d| && Read(d, i) == Ok((wire, j))
    ensures i < j <= |d|
    ensures wire % 8 == 1 ==> Skip(d, i, depth) == SkipOn(d, i, j + 8, depth)
    ensures wire % 8 == 3 ==> Skip(d, i, depth) == SkipOn(d, i, j, depth + 1)
    ensures wire % 8 == 4 ==> Skip(d, i, depth) == if depth > 0 then SkipOn(d, i, j, depth - 1) else Err(UnexpectedEndOfGroup)
    ensures wire % 8 == 5 ==> Skip(d, i, depth) == SkipOn(d, i, j + 4, depth)
    ensures wire % 8 >= 6 ==> Skip(d, i, depth) == Err(IllegalWireType)
  {
    hide ReadFrom, SkipOn;
    ReadProgress(d, i, 0);
  }

  lemma SkipRoundRead(d: Bytes, i: nat, depth: nat, wire: nat, j: nat, v: nat, k: nat)
    requires i < |d| && Read(d, i) == Ok((wire, j)) && Read(d, j) == Ok((v, k))
    ensures i < j < k <= |d|
    ensures wire % 8 == 0 ==> Skip(d, i, depth) == SkipOn(d, i, k, depth)
    ensures wire % 8 == 2 ==> Skip(d, i, depth) == if v < TWO_63 then SkipOn(d, i, k + v, depth) else Err(InvalidLength)
  {
    hide ReadFrom, SkipOn;
    ReadProgress(d, i, 0);
    ReadProgress(d, j, 0);
  }

  lemma SkipOnward(d: Bytes, i: nat, next: nat, depth: nat)
    requires i < |d| && i < next < TWO_63
    ensures SkipOn(d, i, next, depth) == if depth == 0 then Ok(next) else Skip(d, next, depth)
  {
    hide Skip;
  }

  /** What follows the field at `i` that ends at `end`. */
  ghost predicate Skipped(d: Bytes, i: nat, end: nat, depth: nat) {
    Skip(d, i, depth) == if depth == 0 then Ok(end) else Skip(d, end, depth)
  }

  lemma {:induction false} SkipRaw(pre: Bytes, tag: Bytes, u: Raw, post: Bytes, depth: nat)
    requires FieldOK(tag, u) && |pre + FieldBytes(tag, u) + post| < TWO_63
    ensures Skipped(pre + FieldBytes(tag, u) + post, |pre|, |pre| + |FieldBytes(tag, u)|, depth)
    decreases u, 1
  {
    hide Read, Wire, IsVarint, Skip, SkipOn, FieldsBytes;
    var d := pre + FieldBytes(tag, u) + post;
    var end := |pre| + |FieldBytes(tag, u)|;
    assert d == pre + tag + (ValueBytes(u) + post);
    ReadRaw(pre, tag, ValueBytes(u) + post);
    VarintThere(tag);
    if u.Number? || u.Delimited? {
      SkipRead(pre, tag, u, post, depth);
    } else if u.Group? {
      SkipGroup(pre, tag, u, post, depth);
    } else {
      SkipRound(d, |pre|, depth, Wire(tag), |pre| + |tag|);
      SkipOnward(d, |pre|, end, depth);
    }
  }

  lemma VarintThere(b: Bytes)
    requires IsVarint(b)
    ensures |b| >= 1
  {
  }

  lemma SkipRead(pre: Bytes, tag: Bytes, u: Raw, post: Bytes, depth: nat)
    requires FieldOK(tag, u) && (u.Number? || u.Delimited?) && |pre + FieldBytes(tag, u) + post| < TWO_63
    ensures Skipped(pre + FieldBytes(tag, u) + post, |pre|, |pre| + |FieldBytes(tag, u)|, depth)
  {
    hide Read, Wire, IsVarint, Skip, SkipOn;
    var d := pre + FieldBytes(tag, u) + post;
    var end := |pre| + |FieldBytes(tag, u)|;
    assert d == pre + tag + (ValueBytes(u) + post);
    ReadRaw(pre, tag, ValueBytes(u) + post);
    var b := if u.Number? then u.b else u.len;
    var rest := if u.Number? then post else u.payload + post;
    assert d == (pre + tag) + b + rest;
    ReadRaw(pre + tag, b, rest);
    VarintThere(tag);
    SkipRoundRead(d, |pre|, depth, Wire(tag), |pre| + |tag|, Wire(b), |pre| + |tag| + |b|);
    SkipOnward(d, |pre|, end, depth);
  }

  lemma {:induction false} SkipGroup(pre: Bytes, tag: Bytes, u: Raw, post: Bytes, depth: nat)
    requires FieldOK(tag, u) && u.Group? && |pre + FieldBytes(tag, u) + post| < TWO_63
    ensures Skipped(pre + FieldBytes(tag, u) + post, |pre|, |pre| + |FieldBytes(tag, u)|, depth)
    decreases u, 0
  {
    hide Read, Wire, IsVarint, Skip, SkipOn, FieldsBytes;
    var inner, close := FieldsBytes(u.fields), u.end;
    var d := pre + FieldBytes(tag, u) + post;
    VarintThere(tag);
    VarintThere(close);
    assert d == pre + tag + (inner + close + post);
    ReadRaw(pre, tag, inner + close + post);
    SkipRound(d, |pre|, depth, Wire(tag), |pre| + |tag|);
    SkipOnward(d, |pre|, |pre| + |tag|, depth + 1);
    assert d == (pre + tag) + inner + (close + post);
    SkipFields(pre + tag, u.fields, close + post, depth + 1);
    var before := pre + tag + inner;
    assert d == before + close + post;
    ReadRaw(before, close, post);
    SkipRound(d, |before|, depth + 1, Wire(close), |before| + |close|);
    SkipOnward(d, |before|, |before| + |close|, depth);
  }

  lemma {:induction false} SkipFields(pre: Bytes, fs: Fields, post: Bytes, depth: nat)
    requires FieldsOK(fs) && depth > 0 && |pre + FieldsBytes(fs) + post| < TWO_63
    ensures Skip(pre + FieldsBytes(fs) + post, |pre|, depth)
         == Skip(pre + FieldsBytes(fs) + post, |pre| + |FieldsBytes(fs)|, depth)
    decreases fs
  {
    hide Skip, FieldBytes, FieldOK;
    if fs.More? {
      var first, rest := FieldBytes(fs.tag, fs.value), FieldsBytes(fs.rest);
      var d := pre + FieldsBytes(fs) + post;
      assert d == pre + first + (rest + post);
      SkipRaw(pre, fs.tag, fs.value, rest + post, depth);
      assert d == (pre + first) + rest + post;
      SkipFields(pre + first, fs.rest, post, depth);
    }
  }

  // ---- what was skipped is a field ----

  /** The bytes of one field with a value that is not a group, and how the skipping goes on after it. */
  lemma FlatField(d: Bytes, i: nat, depth: nat, wire: nat, j: nat) returns (u: Raw, next: nat)
    requires i < |d| < TWO_63 && Read(d, i) == Ok((wire, j)) && wire % 8 in {0, 1, 2, 5}
    requires Skip(d, i, depth).Ok? && (depth == 0 ==> Skip(d, i, depth).value <= |d|)
    ensures i < j <= next <= |d| && RawOK(u) && WireType(u) == wire % 8 && d[j..next] == ValueBytes(u)
    ensures Skip(d, i, depth) == if depth == 0 then Ok(next) else Skip(d, next, depth)
  {
    hide Read, Wire, IsVarint, SkipOn;
    SkipRound(d, i, depth, wire, j);
    if wire % 8 == 0 || wire % 8 == 2 {
      u, next := ReadValue(d, i, depth, wire, j);
    } else {
      next := if wire % 8 == 1 then j + 8 else j + 4;
      FixedFits(d, i, next, depth);
      u := if wire % 8 == 1 then Eight(d[j..next]) else Four(d[j..next]);
    }
  }

  /** A skip that succeeds did not run past the end. */
  lemma FixedFits(d: Bytes, i: nat, next: nat, depth: nat)
    requires i < |d| < TWO_63 && i < next && SkipOn(d, i, next, depth).Ok?
    requires depth == 0 ==> SkipOn(d, i, next, depth).value <= |d|
    ensures next <= |d| && SkipOn(d, i, next, depth) == if depth == 0 then Ok(next) else Skip(d, next, depth)
  {
  }

  lemma ReadValue(d: Bytes, i: nat, depth: nat, wire: nat, j: nat) returns (u: Raw, next: nat)
    requires i < |d| < TWO_63 && Read(d, i) == Ok((wire, j)) && i < j <= |d| && (wire % 8 == 0 || wire % 8 == 2)
    requires Skip(d, i, depth).Ok? && (depth == 0 ==> Skip(d, i, depth).value <= |d|)
    ensures j <= next <= |d| && RawOK(u) && WireType(u) == wire % 8 && d[j..next] == ValueBytes(u)
    ensures Skip(d, i, depth) == if depth == 0 then Ok(next) else Skip(d, next, depth)
  {
    hide ReadFrom, Wire, IsVarint, SkipOn;
    assert Read(d, j).Ok?;
    var (v, k) := Read(d, j).value;
    ReadMeans(d, j);
    assert IsVarint(d[j..k]) && Wire(d[j..k]) == v;
    SkipRoundRead(d, i, depth, wire, j, v, k);
    if wire % 8 == 0 {
      next := k;
      FixedFits(d, i, next, depth);
      u := Number(d[j..k]);
    } else {
      next := k + v;
      FixedFits(d, i, next, depth);
      u := Delimited(d[j..k], d[k..next]);
      assert d[j..next] == d[j..k] + d[k..next];
    }
  }

  lemma TagRead(d: Bytes, i: nat, depth: nat) returns (wire: nat, j: nat)
    requires i < |d| && Skip(d, i, depth).Ok?
    ensures Read(d, i) == Ok((wire, j)) && i < j <= |d| && IsVarint(d[i..j]) && Wire(d[i..j]) == wire
    ensures wire % 8 in {0, 1, 2, 3, 4, 5} && (wire % 8 == 4 ==> depth > 0)
  {
    hide ReadFrom, Wire, IsVarint, SkipOn;
    wire, j := Read(d, i).value.0, Read(d, i).value.1;
    ReadMeans(d, i);
    SkipRound(d, i, depth, wire, j);
  }

  /** Inside a group: fields and an end, and how the skipping goes on after it. */
  lemma {:induction false} GroupParses(d: Bytes, i: nat, depth: nat) returns (fs: Fields, end: Bytes, next: nat)
    requires |d| < TWO_63 && depth > 0 && Skip(d, i, depth).Ok? && Skip(d, i, depth).value <= |d|
    ensures i < next <= |d| && FieldsOK(fs) && IsVarint(end) && Wire(end) % 8 == 4
    ensures d[i..next] == FieldsBytes(fs) + end
    ensures Skip(d, i, depth) == if depth == 1 then Ok(next) else Skip(d, next, depth - 1)
    decreases |d| - i
  {
    hide Read, Wire, IsVarint, SkipOn, RawOK, ValueBytes, Skip, FieldsBytes;
    SkipInside(d, i, depth);
    var wire, j := TagRead(d, i, depth);
    if wire % 8 == 4 {
      SkipRound(d, i, depth, wire, j);
      SkipOnward(d, i, j, depth - 1);
      fs, end, next := Done, d[i..j], j;
      NoFields();
      assert d[i..j] == [] + d[i..j];
    } else {
      var u, k := OneField(d, i, depth, wire, j);
      var rest, end', next' := GroupParses(d, k, depth);
      fs, end, next := More(d[i..j], u, rest), end', next';
      JoinField(d, i, j, k, next, u, rest, end);
    }
  }

  lemma JoinField(d: Bytes, i: nat, j: nat, k: nat, next: nat, u: Raw, rest: Fields, end: Bytes)
    requires i <= j <= k <= next <= |d|
    requires FieldOK(d[i..j], u) && FieldsOK(rest)
    requires d[j..k] == ValueBytes(u) && d[k..next] == FieldsBytes(rest) + end
    ensures FieldsOK(More(d[i..j], u, rest)) && d[i..next] == FieldsBytes(More(d[i..j], u, rest)) + end
  {
    hide FieldOK, ValueBytes;
    assert d[i..next] == (d[i..j] + d[j..k]) + d[k..next];
    var first := FieldBytes(d[i..j], u);
    assert first + FieldsBytes(rest) + end == first + (FieldsBytes(rest) + end);
  }

  lemma NoFields()
    ensures FieldsBytes(Done) == [] && FieldsOK(Done)
  {
  }

  lemma SkipInside(d: Bytes, i: nat, depth: nat)
    requires Skip(d, i, depth).Ok?
    ensures i < |d|
  {
  }

  /** One field, group or not, and how the skipping goes on after it. */
  lemma {:induction false} OneField(d: Bytes, i: nat, depth: nat, wire: nat, j: nat) returns (u: Raw, next: nat)
    requires i < |d| < TWO_63 && Read(d, i) == Ok((wire, j)) && i < j <= |d| && wire % 8 in {0, 1, 2, 3, 5}
    requires Skip(d, i, depth).Ok? && Skip(d, i, depth).value <= |d|
    ensures j <= next <= |d| && RawOK(u) && WireType(u) == wire % 8 && d[j..next] == ValueBytes(u)
    ensures Skip(d, i, depth) == if depth == 0 then Ok(next) else Skip(d, next, depth)
    decreases |d| - i, 0
  {
    hide Read, Wire, IsVarint, SkipOn, Skip;
    if wire % 8 == 3 {
      SkipRound(d, i, depth, wire, j);
      SkipOnward(d, i, j, depth + 1);
      var fs, end, k := GroupParses(d, j, depth + 1);
      u, next := Group(fs, end), k;
    } else {
      u, next := FlatField(d, i, depth, wire, j);
    }
  }

  /** A field is skipped to its end exactly if the bytes up to there are a field. */
  lemma SkipExactly(d: Bytes, i: nat, end: nat)
    requires |d| < TWO_63 && i < |d| && end <= |d|
    ensures Skip(d, i, 0) == Ok(end) <==> i < end && exists tag, u :: FieldOK(tag, u) && d[i..end] == FieldBytes(tag, u)
  {
    hide Read, Wire, IsVarint, SkipOn, Skip, RawOK, ValueBytes;
    if Skip(d, i, 0) == Ok(end) {
      var wire, j := TagRead(d, i, 0);
      var u, next := OneField(d, i, 0, wire, j);
      assert d[i..end] == d[i..j] + d[j..end];
      assert FieldOK(d[i..j], u) && d[i..end] == FieldBytes(d[i..j], u);
    }
    if i < end && exists tag, u :: FieldOK(tag, u) && d[i..end] == FieldBytes(tag, u) {
      var tag, u :| FieldOK(tag, u) && d[i..end] == FieldBytes(tag, u);
      assert d == d[..i] + FieldBytes(tag, u) + d[end..];
      SkipRaw(d[..i], tag, u, d[end..], 0);
    }
  }

  // ---- messages ----

  /** One field of a message: one that it has, with its payload, or another one. */
  datatype Item = Known(num: int, tag: Bytes, len: Bytes, payload: Bytes) | Other(tag: Bytes, value: Raw)

  function FieldNumber(tag: Bytes): int {
    Int32(Wire(tag) / 8)
  }

  /** The fields that a message has are numbered from one to `last`; numbers are positive. */
  predicate ItemOK(x: Item, last: nat) {
    match x
    case Known(num, tag, len, payload) =>
      && 1 <= num <= last && FieldNumber(tag) == num
      && FieldOK(tag, Delimited(len, payload))
    case Other(tag, value) => FieldNumber(tag) > last && FieldOK(tag, value)
  }

  function ItemBytes(x: Item): Bytes {
    match x
    case Known(_, tag, len, payload) => tag + (len + payload)
    case Other(tag, value) => FieldBytes(tag, value)
  }

  predicate ItemsOK(xs: seq<Item>, last: nat) {
    forall i | 0 <= i < |xs| :: ItemOK(xs[i], last)
  }

  function ItemsBytes(xs: seq<Item>): Bytes {
    if xs == [] then [] else ItemBytes(xs[0]) + ItemsBytes(xs[1..])
  }

  lemma ReadOk(d: Bytes, i: nat)
    requires i <= |d| && Read(d, i).Ok?
    ensures
      var (v, j) := Read(d, i).value;
      i < j <= |d| && IsVarint(d[i..j]) && v == Wire(d[i..j])
  {
    hide Read, Wire, IsVarint;
    ReadMeans(d, i);
    var v, j := Read(d, i).value.0, Read(d, i).value.1;
    assert Read(d, i) == Ok((v, j));
  }

  lemma TagTaken(d: Bytes, i: nat)
    requires i < |d| && ReadTag(d, i).Ok?
    ensures
      var t := ReadTag(d, i).value;
      && i < t.next <= |d| && IsVarint(d[i..t.next])
      && var w := Wire(d[i..t.next]);
         w % 8 != 4 && Int32(w / 8) > 0 && t == Tag(Int32(w / 8), w % 8, t.next)
  {
    hide Read, Wire, IsVarint, Int32;
    ReadOk(d, i);
  }

  /** A field that is there is taken apart. */
  lemma ItemThere(pre: Bytes, x: Item, post: Bytes, last: nat)
    requires ItemOK(x, last) && |pre + ItemBytes(x) + post| < TWO_63
    ensures
      var d, end := pre + ItemBytes(x) + post, |pre| + |ItemBytes(x)|;
      && |pre| < |d| && ReadTag(d, |pre|).Ok?
      && var t := ReadTag(d, |pre|).value;
         match x
         case Known(num, _, _, payload) =>
           t.field == num && ReadPayload(d, t) == Ok((end - |payload|, end)) && d[end - |payload|..end] == payload
         case Other(_, _) => t.field > last && SkipField(d, |pre|) == Ok(end)
  {
    if x.Known? { KnownThere(pre, x, post, last); } else { OtherThere(pre, x, post, last); }
  }

  lemma TagThere(pre: Bytes, tag: Bytes, rest: Bytes)
    requires IsVarint(tag) && Wire(tag) % 8 != 4 && FieldNumber(tag) > 0
    ensures
      var d := pre + tag + rest;
      |pre| < |d| && ReadTag(d, |pre|) == Ok(Tag(FieldNumber(tag), Wire(tag) % 8, |pre| + |tag|))
  {
    hide Read, Wire, IsVarint, Int32;
    VarintThere(tag);
    ReadRaw(pre, tag, rest);
  }

  lemma KnownThere(pre: Bytes, x: Item, post: Bytes, last: nat)
    requires x.Known? && ItemOK(x, last) && |pre + ItemBytes(x) + post| < TWO_63
    ensures
      var d, end := pre + ItemBytes(x) + post, |pre| + |ItemBytes(x)|;
      && |pre| < |d| && ReadTag(d, |pre|).Ok?
      && var t := ReadTag(d, |pre|).value;
         t.field == x.num && ReadPayload(d, t) == Ok((end - |x.payload|, end)) && d[end - |x.payload|..end] == x.payload
  {
    hide Read, Wire, IsVarint, FieldNumber, ReadTag, ValueBytes, RawOK;
    var d, tag, len, payload := pre + ItemBytes(x) + post, x.tag, x.len, x.payload;
    DelimitedOK(len, payload);
    assert d == pre + tag + (len + payload + post);
    TagThere(pre, tag, len + payload + post);
    assert d == (pre + tag) + len + (payload + post);
    ReadRaw(pre + tag, len, payload + post);
  }

  lemma OtherThere(pre: Bytes, x: Item, post: Bytes, last: nat)
    requires x.Other? && ItemOK(x, last) && |pre + ItemBytes(x) + post| < TWO_63
    ensures
      var d, end := pre + ItemBytes(x) + post, |pre| + |ItemBytes(x)|;
      && |pre| < |d| && ReadTag(d, |pre|).Ok? && ReadTag(d, |pre|).value.field > last
      && SkipField(d, |pre|) == Ok(end)
  {
    hide Read, Wire, IsVarint, FieldNumber, ReadTag, ValueBytes, RawOK, Skip;
    var d, tag, u := pre + ItemBytes(x) + post, x.tag, x.value;
    assert d == pre + tag + (ValueBytes(u) + post);
    TagThere(pre, tag, ValueBytes(u) + post);
    assert d[|pre|..] == [] + FieldBytes(tag, u) + post;
    SkipRaw([], tag, u, post, 0);
  }

  lemma DelimitedOK(len: Bytes, payload: Bytes)
    ensures RawOK(Delimited(len, payload)) <==> IsVarint(len) && Wire(len) == |payload|
    ensures ValueBytes(Delimited(len, payload)) == len + payload
  {
  }

  /** A payload that is taken stands behind its length. */
  lemma KnownFound(d: Bytes, i: nat, last: nat) returns (x: Item, end: nat)
    requires i < |d| < TWO_63 && ReadTag(d, i).Ok?
    requires 1 <= ReadTag(d, i).value.field <= last && ReadPayload(d, ReadTag(d, i).value).Ok?
    ensures
      var t := ReadTag(d, i).value;
      && x.Known? && ItemOK(x, last) && x.num == t.field
      && end == ReadPayload(d, t).value.1 && i < end <= |d| && d[i..end] == ItemBytes(x)
      && x.payload == d[ReadPayload(d, t).value.0..end]
  {
    hide Read, Wire, IsVarint, Int32, ValueBytes, RawOK;
    var t := ReadTag(d, i).value;
    TagTaken(d, i);
    assert IsVarint(d[i..t.next]);
    var k := ReadPayload(d, t).value.0;
    end := ReadPayload(d, t).value.1;
    ReadOk(d, t.next);
    var tag, len, payload := d[i..t.next], d[t.next..k], d[k..end];
    DelimitedOK(len, payload);
    x := Known(t.field, tag, len, payload);
    assert d[i..end] == tag + (len + payload);
  }

  /** What is skipped is a field. */
  lemma OtherFound(d: Bytes, i: nat, last: nat) returns (x: Item, end: nat)
    requires i < |d| < TWO_63 && ReadTag(d, i).Ok?
    requires ReadTag(d, i).value.field > last && SkipField(d, i).Ok?
    ensures x.Other? && ItemOK(x, last)
    ensures end == SkipField(d, i).value && i < end <= |d| && d[i..end] == ItemBytes(x)
  {
    hide Read, Wire, IsVarint, Int32, ValueBytes, RawOK, Skip;
    var t := ReadTag(d, i).value;
    TagTaken(d, i);
    end := SkipField(d, i).value;
    SkipExactly(d[i..], 0, end - i);
    var tag, u :| FieldOK(tag, u) && d[i..][0..end - i] == FieldBytes(tag, u);
    assert d[i..end] == FieldBytes(tag, u);
    assert d == d[..i] + tag + (ValueBytes(u) + d[end..]);
    VarintThere(tag);
    ReadRaw(d[..i], tag, ValueBytes(u) + d[end..]);
    x := Other(tag, u);
  }

  lemma Positive(d: Bytes, i: nat)
    requires ReadTag(d, i).Ok?
    ensures ReadTag(d, i).value.field >= 1
  {
    hide Read;
  }

  lemma ItemsFirst(xs: seq<Item>, last: nat)
    requires ItemsOK(xs, last) && xs != []
    ensures ItemOK(xs[0], last) && ItemsOK(xs[1..], last)
    ensures ItemsBytes(xs) == ItemBytes(xs[0]) + ItemsBytes(xs[1..])
  {
    hide ItemOK, ItemBytes;
  }

  lemma ItemsMore(d: Bytes, i: nat, end: nat, x: Item, xs: seq<Item>, last: nat)
    requires ItemOK(x, last) && ItemsOK(xs, last) && i <= end <= |d|
    requires d[i..end] == ItemBytes(x) && d[end..] == ItemsBytes(xs)
    ensures ItemsOK([x] + xs, last) && ItemsBytes([x] + xs) == d[i..]
  {
    hide ItemOK, ItemBytes;
    assert ([x] + xs)[1..] == xs;
    assert d[i..] == d[i..end] + d[end..];
  }

  // ---- children ----

  /** The child that a sequence of fields says, on top of what was there: a later field overrides an earlier one. */
  function ChildOf(xs: seq<Item>, m: ReadChild): Option<ReadChild> {
    if xs == [] then Some(m)
    else
      match xs[0]
      case Other(_, _) => ChildOf(xs[1..], m)
      case Known(num, _, _, payload) =>
        if num == 1 then ChildOf(xs[1..], m.(index := payload))
        else
          match ReadInt(payload, m.acc)
          case Ok(v) => ChildOf(xs[1..], m.(acc := v))
          case Err(_) => None
  }

  lemma {:induction false} ChildDecodes(pre: Bytes, xs: seq<Item>, m: ReadChild)
    requires ItemsOK(xs, 2) && |pre + ItemsBytes(xs)| < TWO_63 && ChildOf(xs, m).Some?
    ensures DecodeChild(pre + ItemsBytes(xs), |pre|, m) == Ok(ChildOf(xs, m).value)
    decreases |xs|
  {
    hide ReadTag, ReadPayload, SkipField, ReadInt, ItemOK, ItemBytes, ItemsBytes, ItemsOK;
    if xs == [] {
      NoItems();
    } else {
      ItemsFirst(xs, 2);
      var d, first, rest := pre + ItemsBytes(xs), ItemBytes(xs[0]), ItemsBytes(xs[1..]);
      assert d == pre + first + rest;
      assert d == (pre + first) + rest;
      ItemThere(pre, xs[0], rest, 2);
      if xs[0].Other? {
        ChildDecodes(pre + first, xs[1..], m);
      } else if xs[0].num == 1 {
        ChildDecodes(pre + first, xs[1..], m.(index := xs[0].payload));
      } else {
        KnownNumber(xs[0], 2);
        ChildDecodes(pre + first, xs[1..], m.(acc := ReadInt(xs[0].payload, m.acc).value));
      }
    }
  }

  lemma NoItems()
    ensures ItemsBytes([]) == []
  {
  }

  lemma KnownNumber(x: Item, last: nat)
    requires x.Known? && ItemOK(x, last)
    ensures 1 <= x.num <= last
  {
    hide FieldOK, FieldNumber;
  }

  lemma {:induction false} ChildParses(d: Bytes, i: nat, m: ReadChild) returns (xs: seq<Item>)
    requires i <= |d| < TWO_63 && DecodeChild(d, i, m).Ok?
    ensures ItemsOK(xs, 2) && ItemsBytes(xs) == d[i..] && ChildOf(xs, m) == Some(DecodeChild(d, i, m).value)
    decreases |d| - i
  {
    hide ReadTag, ReadPayload, SkipField, ReadInt, ItemOK, ItemBytes, ItemsBytes, ItemsOK;
    if i == |d| {
      xs := [];
      NoItems();
      NothingWrong(2);
    } else {
      var t := ReadTag(d, i).value;
      Positive(d, i);
      if t.field <= 2 {
        var x, end := KnownFound(d, i, 2);
        var m' := if t.field == 1 then m.(index := x.payload) else m.(acc := ReadInt(x.payload, m.acc).value);
        var rest := ChildParses(d, end, m');
        xs := [x] + rest;
        ItemsMore(d, i, end, x, rest, 2);
        assert xs[1..] == rest;
      } else {
        var x, end := OtherFound(d, i, 2);
        var rest := ChildParses(d, end, m);
        xs := [x] + rest;
        ItemsMore(d, i, end, x, rest, 2);
        assert xs[1..] == rest;
      }
    }
  }

  lemma NothingWrong(last: nat)
    ensures ItemsOK([], last)
  {
  }

  /** Exactly which bytes are decoded as a child, and as which. */
  lemma ChildExactly(d: Bytes, m: ReadChild, c: ReadChild)
    requires |d| < TWO_63
    ensures DecodeChild(d, 0, m) == Ok(c) <==> exists xs :: ItemsOK(xs, 2) && ItemsBytes(xs) == d && ChildOf(xs, m) == Some(c)
  {
    hide DecodeChild, ItemsOK, ItemsBytes, ChildOf;
    if DecodeChild(d, 0, m) == Ok(c) {
      var xs := ChildParses(d, 0, m);
      assert d[0..] == d;
    }
    if xs :| ItemsOK(xs, 2) && ItemsBytes(xs) == d && ChildOf(xs, m) == Some(c) {
      assert [] + ItemsBytes(xs) == d;
      ChildDecodes([], xs, m);
    }
  }

  // ---- nodes ----

  /** The children that a sequence of fields says, after those that were there. */
  function NodeOf(xs: seq<Item>, m: seq<ReadChild>): Option<seq<ReadChild>> {
    if xs == [] then Some(m)
    else
      match xs[0]
      case Other(_, _) => NodeOf(xs[1..], m)
      case Known(_, _, _, payload) =>
        match DecodeChild(payload, 0, NO_CHILD)
        case Ok(c) => NodeOf(xs[1..], m + [c])
        case Err(_) => None
  }

  lemma {:induction false} NodeDecodes(pre: Bytes, xs: seq<Item>, m: seq<ReadChild>)
    requires ItemsOK(xs, 1) && |pre + ItemsBytes(xs)| < TWO_63 && NodeOf(xs, m).Some?
    ensures DecodeNode(pre + ItemsBytes(xs), |pre|, m) == Ok(NodeOf(xs, m).value)
    decreases |xs|
  {
    hide ReadTag, ReadPayload, SkipField, DecodeChild, ItemOK, ItemBytes, ItemsBytes, ItemsOK;
    if xs == [] {
      NoItems();
    } else {
      ItemsFirst(xs, 1);
      var d, first, rest := pre + ItemsBytes(xs), ItemBytes(xs[0]), ItemsBytes(xs[1..]);
      assert d == pre + first + rest;
      assert d == (pre + first) + rest;
      ItemThere(pre, xs[0], rest, 1);
      if xs[0].Other? {
        NodeDecodes(pre + first, xs[1..], m);
      } else {
        KnownNumber(xs[0], 1);
        NodeDecodes(pre + first, xs[1..], m + [DecodeChild(xs[0].payload, 0, NO_CHILD).value]);
      }
    }
  }

  lemma {:induction false} NodeParses(d: Bytes, i: nat, m: seq<ReadChild>) returns (xs: seq<Item>)
    requires i <= |d| < TWO_63 && DecodeNode(d, i, m).Ok?
    ensures ItemsOK(xs, 1) && ItemsBytes(xs) == d[i..] && NodeOf(xs, m) == Some(DecodeNode(d, i, m).value)
    decreases |d| - i
  {
    hide ReadTag, ReadPayload, SkipField, DecodeChild, ItemOK, ItemBytes, ItemsBytes, ItemsOK;
    if i == |d| {
      xs := [];
      NoItems();
      NothingWrong(1);
    } else {
      var t := ReadTag(d, i).value;
      Positive(d, i);
      if t.field <= 1 {
        var x, end := KnownFound(d, i, 1);
        var rest := NodeParses(d, end, m + [DecodeChild(x.payload, 0, NO_CHILD).value]);
        xs := [x] + rest;
        ItemsMore(d, i, end, x, rest, 1);
        assert xs[1..] == rest;
      } else {
        var x, end := OtherFound(d, i, 1);
        var rest := NodeParses(d, end, m);
        xs := [x] + rest;
        ItemsMore(d, i, end, x, rest, 1);
        assert xs[1..] == rest;
      }
    }
  }

  /** Exactly which bytes are decoded as a node, and as which. */
  lemma NodeExactly(d: Bytes, cs: seq<ReadChild>)
    requires |d| < TWO_63
    ensures DecodeNode(d, 0, []) == Ok(cs) <==> exists xs :: ItemsOK(xs, 1) && ItemsBytes(xs) == d && NodeOf(xs, []) == Some(cs)
  {
    hide DecodeNode, ItemsOK, ItemsBytes, NodeOf;
    if DecodeNode(d, 0, []) == Ok(cs) {
      var xs := NodeParses(d, 0, []);
      assert d[0..] == d;
    }
    if xs :| ItemsOK(xs, 1) && ItemsBytes(xs) == d && NodeOf(xs, []) == Some(cs) {
      assert [] + ItemsBytes(xs) == d;
      NodeDecodes([], xs, []);
    }
  }

  // ---- leaves ----

  /** The leaf that a sequence of fields says: repeated fields are merged into one child. */
  function LeafOf(xs: seq<Item>, m: Option<ReadChild>): Option<Option<ReadChild>> {
    if xs == [] then Some(m)
    else
      match xs[0]
      case Other(_, _) => LeafOf(xs[1..], m)
      case Known(_, _, _, payload) =>
        match DecodeChild(payload, 0, if m.None? then NO_CHILD else m.value)
        case Ok(c) => LeafOf(xs[1..], Some(c))
        case Err(_) => None
  }

  lemma {:induction false} LeafDecodes(pre: Bytes, xs: seq<Item>, m: Option<ReadChild>)
    requires ItemsOK(xs, 1) && |pre + ItemsBytes(xs)| < TWO_63 && LeafOf(xs, m).Some?
    ensures DecodeLeaf(pre + ItemsBytes(xs), |pre|, m) == Ok(LeafOf(xs, m).value)
    decreases |xs|
  {
    hide ReadTag, ReadPayload, SkipField, DecodeChild, ItemOK, ItemBytes, ItemsBytes, ItemsOK;
    if xs == [] {
      NoItems();
    } else {
      ItemsFirst(xs, 1);
      var d, first, rest := pre + ItemsBytes(xs), ItemBytes(xs[0]), ItemsBytes(xs[1..]);
      assert d == pre + first + rest;
      assert d == (pre + first) + rest;
      ItemThere(pre, xs[0], rest, 1);
      if xs[0].Other? {
        LeafDecodes(pre + first, xs[1..], m);
      } else {
        KnownNumber(xs[0], 1);
        LeafDecodes(pre + first, xs[1..], Some(DecodeChild(xs[0].payload, 0, if m.None? then NO_CHILD else m.value).value));
      }
    }
  }

  lemma {:induction false} LeafParses(d: Bytes, i: nat, m: Option<ReadChild>) returns (xs: seq<Item>)
    requires i <= |d| < TWO_63 && DecodeLeaf(d, i, m).Ok?
    ensures ItemsOK(xs, 1) && ItemsBytes(xs) == d[i..] && LeafOf(xs, m) == Some(DecodeLeaf(d, i, m).value)
    decreases |d| - i
  {
    hide ReadTag, ReadPayload, SkipField, DecodeChild, ItemOK, ItemBytes, ItemsBytes, ItemsOK;
    if i == |d| {
      xs := [];
      NoItems();
      NothingWrong(1);
    } else {
      var t := ReadTag(d, i).value;
      Positive(d, i);
      if t.field <= 1 {
        var x, end := KnownFound(d, i, 1);
        var rest := LeafParses(d, end, Some(DecodeChild(x.payload, 0, if m.None? then NO_CHILD else m.value).value));
        xs := [x] + rest;
        ItemsMore(d, i, end, x, rest, 1);
        assert xs[1..] == rest;
      } else {
        var x, end := OtherFound(d, i, 1);
        var rest := LeafParses(d, end, m);
        xs := [x] + rest;
        ItemsMore(d, i, end, x, rest, 1);
        assert xs[1..] == rest;
      }
    }
  }

  /** Exactly which bytes are decoded as a leaf, and as which. */
  lemma LeafExactly(d: Bytes, c: Option<ReadChild>)
    requires |d| < TWO_63
    ensures DecodeLeaf(d, 0, None) == Ok(c) <==> exists xs :: ItemsOK(xs, 1) && ItemsBytes(xs) == d && LeafOf(xs, None) == Some(c)
  {
    hide DecodeLeaf, ItemsOK, ItemsBytes, LeafOf;
    if DecodeLeaf(d, 0, None) == Ok(c) {
      var xs := LeafParses(d, 0, None);
      assert d[0..] == d;
    }
    if xs :| ItemsOK(xs, 1) && ItemsBytes(xs) == d && LeafOf(xs, None) == Some(c) {
      assert [] + ItemsBytes(xs) == d;
      LeafDecodes([], xs, None);
    }
  }

  // ---- consequences ----

  /** A field that the message does not have changes nothing, wherever it stands. */
  lemma {:induction false} OtherIgnored(xs: seq<Item>, other: Item, ys: seq<Item>,
                                        c: ReadChild, m: seq<ReadChild>, l: Option<ReadChild>)
    requires other.Other?
    ensures ChildOf(xs + [other] + ys, c) == ChildOf(xs + ys, c)
    ensures NodeOf(xs + [other] + ys, m) == NodeOf(xs + ys, m)
    ensures LeafOf(xs + [other] + ys, l) == LeafOf(xs + ys, l)
    decreases |xs|
  {
    hide DecodeChild, ReadInt;
    if xs == [] {
      assert xs + [other] + ys == [other] + ys && xs + ys == ys;
      assert ([other] + ys)[1..] == ys;
    } else {
      assert (xs + [other] + ys)[1..] == xs[1..] + [other] + ys && (xs + ys)[1..] == xs[1..] + ys;
      OtherIgnoredRest(xs, other, ys, c, m, l);
    }
  }

  lemma {:induction false} OtherIgnoredRest(xs: seq<Item>, other: Item, ys: seq<Item>,
                                            c: ReadChild, m: seq<ReadChild>, l: Option<ReadChild>)
    requires other.Other? && xs != []
    ensures
      var a, b := xs[1..] + [other] + ys, xs[1..] + ys;
      && (forall c' :: ChildOf(a, c') == ChildOf(b, c'))
      && (forall m' :: NodeOf(a, m') == NodeOf(b, m'))
      && (forall l' :: LeafOf(a, l') == LeafOf(b, l'))
    decreases |xs|, 0
  {
    var a, b := xs[1..] + [other] + ys, xs[1..] + ys;
    forall c' ensures ChildOf(a, c') == ChildOf(b, c') { OtherIgnored(xs[1..], other, ys, c', m, l); }
    forall m' ensures NodeOf(a, m') == NodeOf(b, m') { OtherIgnored(xs[1..], other, ys, c, m', l); }
    forall l' ensures LeafOf(a, l') == LeafOf(b, l') { OtherIgnored(xs[1..], other, ys, c, m, l'); }
  }

  /** The same in terms of bytes. */
  lemma UnknownFieldIgnored(pre: Bytes, tag: Bytes, u: Raw, post: Bytes, c: ReadChild, m: seq<ReadChild>, l: Option<ReadChild>)
    requires FieldOK(tag, u) && FieldNumber(tag) > 1 && |pre + FieldBytes(tag, u) + post| < TWO_63
    ensures
      var d, end := pre + FieldBytes(tag, u) + post, |pre| + |FieldBytes(tag, u)|;
      && (FieldNumber(tag) > 2 ==> DecodeChild(d, |pre|, c) == DecodeChild(d, end, c))
      && DecodeNode(d, |pre|, m) == DecodeNode(d, end, m)
      && DecodeLeaf(d, |pre|, l) == DecodeLeaf(d, end, l)
  {
    hide ReadTag, ReadPayload, SkipField, FieldBytes, FieldOK, FieldNumber;
    OtherThere(pre, Other(tag, u), post, 1);
    if FieldNumber(tag) > 2 { OtherThere(pre, Other(tag, u), post, 2); }
  }

  // ---- what is written ----

  /** A written field: a tag of one byte, and the shortest length. */
  function WrittenItem(num: nat, payload: Bytes): Item
    requires num < 16
  {
    Known(num, [(8 * num + 2) as Byte], Encode(|payload|), payload)
  }

  lemma WrittenOK(num: nat, payload: Bytes, last: nat)
    requires 1 <= num <= last && num < 16 && |payload| < TWO_63
    ensures ItemOK(WrittenItem(num, payload), last)
    ensures ItemBytes(WrittenItem(num, payload)) == Field((8 * num + 2) as Byte, payload)
  {
    hide Encode, VarintValue;
    var tag := [(8 * num + 2) as Byte];
    OneByteValue(tag);
    assert Wire(tag) == 8 * num + 2 && FieldNumber(tag) == num;
    EncodeIsVarint(|payload|);
    DelimitedOK(Encode(|payload|), payload);
    assert tag + (Encode(|payload|) + payload) == tag + Encode(|payload|) + payload;
  }

  lemma OneByteValue(b: Bytes)
    requires |b| == 1
    ensures VarintValue(b) == b[0] as int % 128
  {
    assert b[1..] == [];
  }

  /** A child is written as its index, unless that is empty, and then its accumulation. */
  lemma ChildWritten(c: Child)
    requires |EncodeChild(c)| < TWO_63
    ensures
      var acc := WrittenItem(2, IntBytes(c.acc));
      var xs := if c.index == [] then [acc] else [WrittenItem(1, c.index), acc];
      ItemsOK(xs, 2) && ItemsBytes(xs) == EncodeChild(c)
  {
    hide ItemOK, ItemBytes, WrittenItem, Field, IntBytes;
    var acc := WrittenItem(2, IntBytes(c.acc));
    WrittenOK(2, IntBytes(c.acc), 2);
    assert [acc][1..] == [];
    assert ItemsBytes([acc]) == ItemBytes(acc) + [];
    if c.index != [] {
      var index := WrittenItem(1, c.index);
      WrittenOK(1, c.index, 2);
      assert [index, acc][1..] == [acc];
      assert ItemsBytes([index, acc]) == ItemBytes(index) + ItemsBytes([acc]);
    }
  }

  /** A node is written as its children, in order. */
  function NodeItems(cs: seq<Child>): seq<Item> {
    if cs == [] then [] else [WrittenItem(1, EncodeChild(cs[0]))] + NodeItems(cs[1..])
  }

  lemma {:induction false} NodeWritten(cs: seq<Child>)
    requires |EncodeNode(cs)| < TWO_63
    ensures ItemsOK(NodeItems(cs), 1) && ItemsBytes(NodeItems(cs)) == EncodeNode(cs)
  {
    hide ItemOK, ItemBytes, WrittenItem, Field, EncodeChild;
    if cs != [] {
      NodeWritten(cs[1..]);
      WrittenOK(1, EncodeChild(cs[0]), 1);
      assert NodeItems(cs)[1..] == NodeItems(cs[1..]);
    }
  }
}
