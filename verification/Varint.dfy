/** Base 128 varints: seven bits to a byte, least significant first, the top bit meaning "more". */
module Varint {
  import opened Binary
  import opened KeyOrder
  import opened Rounding

  type Bytes = seq<Byte>

  datatype Error =
    | IntOverflow | UnexpectedEOF | InvalidLength | EndGroupForNonGroup | IllegalTag | WrongWireType
    | UnexpectedEndOfGroup | IllegalWireType | BadInteger

  datatype Result<T> = Ok(value: T) | Err(error: Error)

  const TWO_64: nat := 0x1_0000_0000_0000_0000
  const TWO_63: nat := 0x8000_0000_0000_0000

  function Encode(v: nat): (b: Bytes)
    ensures |b| >= 1
  {
    if v < 128 then [v as Byte] else [(v % 128 + 128) as Byte] + Encode(v / 128)
  }

  // ---- the size ----

  /** `x | 1` */
  function OrOne(x: nat): nat {
    if x % 2 == 0 then x + 1 else x
  }

  /** `sovTree` */
  function Sov(x: nat): nat {
    (BitLen(OrOne(x)) + 6) / 7
  }

  lemma {:induction false} BitLenShift(n: nat, k: nat)
    requires n >= Pow2(k)
    ensures BitLen(n) == k + BitLen(n / Pow2(k))
  {
    if k > 0 {
      assert Pow2(k) == 2 * Pow2(k - 1);
      BitLenShift(n / 2, k - 1);
      DivTwice(n, Pow2(k - 1));
    }
  }

  lemma DivTwice(n: nat, p: nat)
    requires p >= 1
    ensures n / 2 / p == n / (2 * p)
  {
    var q := n / (2 * p);
    var r := n % (2 * p);
    assert n == q * (2 * p) + r;
    assert q * (2 * p) == 2 * (q * p);
    var h := r / 2;
    assert n / 2 == q * p + h;
    assert 0 <= h < p;
    Quotient(n / 2, p, q, h);
  }

  lemma Quotient(n: int, p: int, q: int, h: int)
    requires p >= 1 && n == q * p + h && 0 <= h < p
    ensures n / p == q
  {
    var q' := n / p;
    assert q' * p <= n < q' * p + p;
    if q' < q {
      Multiples(q', q, p);
      assert false;
    } else if q < q' {
      Multiples(q, q', p);
      assert false;
    }
  }

  lemma Pow2Seven()
    ensures Pow2(7) == 128
  {
    assert Pow2(2) == 4 && Pow2(4) == 4 * Pow2(2) && Pow2(7) == 8 * Pow2(4);
  }

  lemma SmallBitLen(n: nat)
    requires 1 <= n < 128
    ensures 1 <= BitLen(n) <= 7
  {
    var a := n / 2;
    var b := a / 2;
    var c := b / 2;
    var d := c / 2;
    var e := d / 2;
    var f := e / 2;
    assert BitLen(f) <= 1;
    assert BitLen(d) <= 3;
    assert BitLen(b) <= 5;
  }

  /** The size that is reserved is the number of bytes that are written. */
  lemma {:induction false} SovIsSize(v: nat)
    ensures Sov(v) == |Encode(v)|
  {
    if v < 128 {
      SmallBitLen(OrOne(v));
    } else {
      Pow2Seven();
      BitLenShift(OrOne(v), 7);
      assert OrOne(v) / 128 == v / 128;
      SovIsSize(v / 128);
      OrOneLen(v / 128);
    }
  }

  lemma OrOneLen(v: nat)
    requires v >= 1
    ensures BitLen(OrOne(v)) == BitLen(v)
  {
    if v % 2 == 0 {
      assert (v + 1) / 2 == v / 2;
    }
  }

  // ---- writing ----

  lemma EncodeNext(v: nat)
    ensures Encode(v) == if v < 128 then [v as Byte] else [(v % 128 + 128) as Byte] + Encode(v / 128)
  {
  }

  /** `encodeVarintTree`: writes the varint so that it ends just before `offset`. */
  method EncodeVarint(buf: array<Byte>, offset: nat, value: nat) returns (base: nat)
    requires |Encode(value)| <= offset <= buf.Length
    modifies buf
    ensures base == offset - |Encode(value)|
    ensures buf[..] == old(buf[..base]) + Encode(value) + old(buf[offset..])
  {
    hide Encode, Sov;
    SovIsSize(value);
    base := offset - Sov(value);
    var at, v := base, value;
    ghost var before, after := buf[..base], buf[offset..];
    ghost var done: Bytes := [];
    while v >= 128
      invariant base <= at < offset && at + |Encode(v)| == offset
      invariant done + Encode(v) == Encode(value) && |done| == at - base
      invariant buf[..at] == before + done && buf[offset..] == after
    {
      EncodeNext(v);
      buf[at] := (v % 128 + 128) as Byte;
      done := done + [(v % 128 + 128) as Byte];
      v := v / 128;
      at := at + 1;
    }
    EncodeNext(v);
    buf[at] := v as Byte;
    assert buf[..offset] == before + done + [v as Byte];
    assert buf[..] == buf[..offset] + buf[offset..];
  }

  lemma Div128(n: nat, p: nat)
    requires p >= 1
    ensures n / 128 / p == n / (128 * p)
  {
    var q, r := n / (128 * p), n % (128 * p);
    assert n == q * (128 * p) + r;
    assert q * (128 * p) == 128 * (q * p);
    assert n / 128 == q * p + r / 128;
    Quotient(n / 128, p, q, r / 128);
  }

  /** The bytes of a varint: seven bits each, least significant first, all but the last marked, and none too many. */
  lemma {:induction false} EncodeMeans(v: nat, i: nat)
    requires i < |Encode(v)|
    ensures Encode(v)[i] as int % 128 == v / Pow128(i) % 128
    ensures Encode(v)[i] >= 128 <==> i < |Encode(v)| - 1
    ensures i > 0 ==> v >= Pow128(i)
    decreases i
  {
    hide Encode, Pow128;
    EncodeNext(v);
    Pow128Next(0);
    if i > 0 {
      EncodeMeans(v / 128, i - 1);
      Pow128Next(i - 1);
      Div128(v, Pow128(i - 1));
      if i == 1 { Pow128Next(0); }
    }
  }

  // ---- reading ----

  function Pow128(k: nat): (p: nat)
    ensures p >= 1
  {
    if k == 0 then 1 else 128 * Pow128(k - 1)
  }

  /** The bytes from `i` on, of which `k` have been read before: the sum and where it ends. */
  function ReadFrom(d: Bytes, i: nat, k: nat): Result<(nat, nat)>
    decreases 10 - k
  {
    if k >= 10 then Err(IntOverflow)
    else if i >= |d| then Err(UnexpectedEOF)
    else
      var part := (d[i] as int % 128) * Pow128(k);
      if d[i] < 128 then Ok((part, i + 1)) else Plus(part, ReadFrom(d, i + 1, k + 1))
  }

  function Plus(v: nat, r: Result<(nat, nat)>): Result<(nat, nat)> {
    match r
    case Ok((rest, j)) => Ok((v + rest, j))
    case Err(e) => Err(e)
  }

  /** A varint as an unsigned 64-bit integer: higher bits are shifted out. */
  function Read(d: Bytes, i: nat): Result<(nat, nat)> {
    match ReadFrom(d, i, 0)
    case Ok((v, j)) => Ok((v % TWO_64, j))
    case Err(e) => Err(e)
  }

  lemma {:induction false} ReadProgress(d: Bytes, i: nat, k: nat)
    requires ReadFrom(d, i, k).Ok?
    ensures i < ReadFrom(d, i, k).value.1 <= |d|
    decreases 10 - k
  {
    if k < 10 && i < |d| && d[i] >= 128 {
      ReadProgress(d, i + 1, k + 1);
    }
  }

  lemma ReadStep(d: Bytes, i: nat, k: nat, v: nat)
    ensures
      Plus(v, ReadFrom(d, i, k)) ==
        if k >= 10 then Err(IntOverflow) else if i >= |d| then Err(UnexpectedEOF)
        else
          var part: nat := (d[i] as int % 128) * Pow128(k);
          if d[i] < 128 then Ok((v + part, i + 1)) else Plus(v + part, ReadFrom(d, i + 1, k + 1))
  {
    hide Pow128;
  }

  lemma PlusZero(r: Result<(nat, nat)>)
    ensures Plus(0, r) == r
  {
  }

  lemma Pow128Next(k: nat)
    ensures Pow128(0) == 1 && Pow128(k + 1) == 128 * Pow128(k)
  {
  }

  /** The loop that reads a varint. */
  method DecodeVarint(d: Bytes, start: nat) returns (r: Result<(nat, nat)>)
    ensures r == Read(d, start)
  {
    hide ReadFrom, Plus, Pow128;
    PlusZero(ReadFrom(d, start, 0));
    Pow128Next(0);
    var i: nat, shift, k: nat, scale := start, 0, 0, 1;
    var v: nat := 0;
    while true
      invariant k <= 10 && shift == 7 * k && scale == Pow128(k)
      invariant ReadFrom(d, start, 0) == Plus(v, ReadFrom(d, i, k))
      decreases 10 - k
    {
      ReadStep(d, i, k, v);
      Pow128Next(k);
      if shift >= 64 {
        return Err(IntOverflow);
      }
      if i >= |d| {
        return Err(UnexpectedEOF);
      }
      var b := d[i];
      i := i + 1;
      v := v + (b as int % 128) * scale;
      if b < 128 {
        return Ok((v % TWO_64, i));
      }
      shift, k, scale := shift + 7, k + 1, 128 * scale;
    }
  }

  /** `v` fits into the bits that are left after `k` bytes. */
  predicate Fits(v: nat, k: nat) {
    v * Pow128(k) < TWO_64
  }

  lemma FitsNext(v: nat, k: nat)
    requires Fits(v, k) && v >= 128
    ensures k < 9 && Fits(v / 128, k + 1)
  {
    var q := v / 128;
    assert (128 * q) * Pow128(k) <= v * Pow128(k);
    assert q * Pow128(k + 1) == (128 * q) * Pow128(k);
    Product(v - 128, Pow128(k));
    assert (v - 128) * Pow128(k) == v * Pow128(k) - 128 * Pow128(k);
    if k >= 9 {
      Pow128Nine(k);
      assert false;
    }
  }

  lemma {:induction false} Pow128Nine(k: nat)
    requires k >= 9
    ensures Pow128(k) >= 0x8000_0000_0000_0000
  {
    if k > 9 {
      Pow128Nine(k - 1);
    } else {
      assert Pow128(1) == 128 && Pow128(2) == 128 * 128 && Pow128(3) == 128 * Pow128(2);
      assert Pow128(6) == 0x200000 * Pow128(3);
      assert Pow128(9) == 0x200000 * Pow128(6);
    }
  }

  lemma {:induction false} ReadFromBack(pre: Bytes, v: nat, post: Bytes, k: nat)
    requires k <= 9 && Fits(v, k)
    ensures ReadFrom(pre + Encode(v) + post, |pre|, k) == Ok((v * Pow128(k), |pre| + |Encode(v)|))
    decreases v
  {
    hide Encode, ReadFrom, Pow128, Fits;
    var d := pre + Encode(v) + post;
    EncodeNext(v);
    var b := Encode(v)[0];
    assert d[|pre|] == b;
    ReadOne(d, |pre|, k);
    if v >= 128 {
      FitsNext(v, k);
      assert d == (pre + [b]) + Encode(v / 128) + post;
      ReadFromBack(pre + [b], v / 128, post, k + 1);
      Pow128Next(k);
      SplitDigit(v, Pow128(k));
    }
  }

  lemma ReadOne(d: Bytes, i: nat, k: nat)
    requires k < 10 && i < |d|
    ensures
      var part := (d[i] as int % 128) * Pow128(k);
      ReadFrom(d, i, k) == if d[i] < 128 then Ok((part, i + 1)) else Plus(part, ReadFrom(d, i + 1, k + 1))
  {
    hide Pow128;
  }

  lemma SplitDigit(v: nat, p: nat)
    ensures (v % 128) * p + (v / 128) * (128 * p) == v * p
  {
    assert v == v % 128 + 128 * (v / 128);
    assert (128 * (v / 128)) * p == (v / 128) * (128 * p);
    assert (v % 128 + 128 * (v / 128)) * p == (v % 128) * p + (128 * (v / 128)) * p;
  }

  /** Every 64-bit number is read back as it was written, wherever it stands. */
  lemma ReadBack(pre: Bytes, v: nat, post: Bytes)
    requires v < TWO_64
    ensures Read(pre + Encode(v) + post, |pre|) == Ok((v, |pre| + |Encode(v)|))
  {
    hide Encode, ReadFrom, Pow128;
    Pow128Next(0);
    ReadFromBack(pre, v, post, 0);
  }

  // ---- which bytes are a varint ----

  /** All bytes but the last are marked as not being the last. */
  predicate Marked(b: Bytes) {
    b != [] && b[|b| - 1] < 128 && forall i | 0 <= i < |b| - 1 :: b[i] >= 128
  }

  /** Seven bits from each byte, least significant first. */
  function VarintValue(b: Bytes): nat {
    if b == [] then 0 else b[0] as int % 128 + 128 * VarintValue(b[1..])
  }

  /** At most ten bytes, of which some may be more than needed. */
  predicate IsVarint(b: Bytes) {
    Marked(b) && |b| <= 10
  }

  /** The 64-bit number: what ten bytes have beyond that is dropped. */
  function Wire(b: Bytes): nat {
    VarintValue(b) % TWO_64
  }

  lemma Shifted(b: nat, v: nat, p: nat)
    ensures (b + 128 * v) * p == b * p + v * (128 * p)
  {
    assert (128 * v) * p == v * (128 * p);
    assert (b + 128 * v) * p == b * p + (128 * v) * p;
  }

  lemma {:induction false} ReadFromRaw(pre: Bytes, raw: Bytes, post: Bytes, k: nat)
    requires Marked(raw) && |raw| + k <= 10
    ensures ReadFrom(pre + raw + post, |pre|, k) == Ok((VarintValue(raw) * Pow128(k), |pre| + |raw|))
    decreases |raw|
  {
    hide ReadFrom, Pow128;
    var d, b := pre + raw + post, raw[0];
    assert d[|pre|] == b;
    ReadOne(d, |pre|, k);
    if |raw| > 1 {
      assert d == (pre + [b]) + raw[1..] + post;
      ReadFromRaw(pre + [b], raw[1..], post, k + 1);
      Pow128Next(k);
      Shifted(b as int % 128, VarintValue(raw[1..]), Pow128(k));
    } else {
      assert raw[1..] == [];
      Shifted(b as int % 128, 0, Pow128(k));
    }
  }

  /** Every varint is read as its number, wherever it stands. */
  lemma ReadRaw(pre: Bytes, raw: Bytes, post: Bytes)
    requires IsVarint(raw)
    ensures Read(pre + raw + post, |pre|) == Ok((Wire(raw), |pre| + |raw|))
  {
    hide ReadFrom, Pow128, VarintValue;
    ReadFromRaw(pre, raw, post, 0);
    Pow128Next(0);
  }

  /** What a reading says about the bytes. */
  ghost predicate ReadSays(d: Bytes, i: nat, k: nat, r: Result<(nat, nat)>) {
    match r
    case Ok((_, j)) => i < j <= |d| && j - i + k <= 10 && Marked(d[i..j])
    case Err(IntOverflow) => i + 10 - k <= |d| && forall x | i <= x < i + 10 - k :: d[x] >= 128
    case Err(UnexpectedEOF) => |d| < i + 10 - k && forall x | i <= x < |d| :: d[x] >= 128
    case Err(_) => false
  }

  lemma {:induction false} ReadFromSays(d: Bytes, i: nat, k: nat)
    requires i <= |d| && k <= 10
    ensures ReadSays(d, i, k, ReadFrom(d, i, k))
    decreases 10 - k
  {
    hide Pow128;
    if k < 10 && i < |d| {
      if d[i] < 128 {
        assert d[i..i + 1] == [d[i]];
      } else {
        ReadFromSays(d, i + 1, k + 1);
        var r := ReadFrom(d, i + 1, k + 1);
        if r.Ok? {
          assert d[i..r.value.1] == [d[i]] + d[i + 1..r.value.1];
        }
      }
    }
  }

  /** A number is read exactly if a varint stands there; otherwise ten marked bytes or the end do. */
  lemma ReadMeans(d: Bytes, i: nat)
    requires i <= |d|
    ensures forall v: nat, j: nat :: Read(d, i) == Ok((v, j)) <==> i < j <= |d| && IsVarint(d[i..j]) && v == Wire(d[i..j])
    ensures Read(d, i) == Err(IntOverflow) <==> i + 10 <= |d| && forall x | i <= x < i + 10 :: d[x] >= 128
    ensures Read(d, i) == Err(UnexpectedEOF) <==> |d| < i + 10 && forall x | i <= x < |d| :: d[x] >= 128
  {
    hide ReadFrom, VarintValue;
    ReadFromSays(d, i, 0);
    forall j: nat | i < j <= |d| && IsVarint(d[i..j]) ensures Read(d, i) == Ok((Wire(d[i..j]), j)) {
      assert d == d[..i] + d[i..j] + d[j..];
      ReadRaw(d[..i], d[i..j], d[j..]);
    }
    if Read(d, i).Ok? {
      assert IsVarint(d[i..Read(d, i).value.1]);
    }
    assert Read(d, i) == Err(IntOverflow) ==> ReadFrom(d, i, 0) == Err(IntOverflow);
  }

  lemma {:induction false} EncodeIsMarked(v: nat)
    ensures Marked(Encode(v)) && VarintValue(Encode(v)) == v
  {
    hide Encode;
    EncodeNext(v);
    if v >= 128 {
      EncodeIsMarked(v / 128);
      assert Encode(v)[1..] == Encode(v / 128);
    } else {
      assert Encode(v)[1..] == [];
    }
  }

  /** What is written is a varint of the number. */
  lemma EncodeIsVarint(v: nat)
    requires v < TWO_64
    ensures IsVarint(Encode(v)) && Wire(Encode(v)) == v
  {
    hide Encode, Marked, VarintValue, Pow128;
    EncodeIsMarked(v);
    if |Encode(v)| > 10 {
      EncodeMeans(v, 10);
      Pow128Nine(10);
      Pow128Next(9);
      Pow128Nine(9);
      assert false;
    }
  }
}
