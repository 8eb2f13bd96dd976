/** Integer powers by square and multiply, rounding after every product. */
module Power {
  import opened Binary
  import opened Options
  import opened Rounding
  import opened BigDec
  import opened RealPow

  /** The loop of `PowerIntegerMut`: `i` squarings and products are still to come. */
  function PowLoop(i: nat, d: int, tmp: int): Option<int>
    decreases i
  {
    if i <= 1 then Mul(d, tmp)
    else
      var tmp' := if i % 2 != 0 then Mul(tmp, d) else Some(tmp);
      var d' := Mul(d, d);
      if tmp'.None? || d'.None? then None else PowLoop(i / 2, d'.value, tmp'.value)
  }

  function PowerInteger(d: int, power: nat): Option<int> {
    if power == 0 then Some(ONE)
    else if power == 1 then Some(d)
    else if power == 2 then Mul(d, d)
    else PowLoop(power, d, ONE)
  }

  /** `PowerIntegerMut` */
  method PowerIntegerMut(base: int, power: nat) returns (r: Option<int>)
    ensures r == PowerInteger(base, power)
  {
    hide Mul;
    if power == 0 {
      return Some(ONE);
    } else if power == 1 {
      return Some(base);
    } else if power == 2 {
      return Mul(base, base);
    }
    var d, tmp, i := base, ONE, power;
    while i > 1
      invariant i >= 1
      invariant PowLoop(i, d, tmp) == PowLoop(power, base, ONE)
    {
      if i % 2 != 0 {
        var t := Mul(tmp, d);
        if t.None? { return None; }
        tmp := t.value;
      }
      i := i / 2;
      var s := Mul(d, d);
      if s.None? { return None; }
      d := s.value;
    }
    r := Mul(d, tmp);
  }

  // ---- error bound for bases between zero and one ----

  lemma {:induction false} PowRange(q: real, n: nat)
    requires 0.0 <= q <= 1.0
    ensures 0.0 <= Pow(q, n) <= 1.0
  {
    if n > 0 {
      PowRange(q, n - 1);
      MulUnit(Pow(q, n - 1), q);
    }
  }

  lemma MulUnit(a: real, b: real)
    requires 0.0 <= a <= 1.0 && 0.0 <= b <= 1.0
    ensures 0.0 <= a * b <= 1.0
  {
    Shrinks(a, b);
  }

  lemma Shrinks(a: real, b: real)
    requires 0.0 <= a <= 1.0 && 0.0 <= b
    ensures 0.0 <= a * b <= b
  {
    var c := 1.0 - a;
    NonNegProduct(a, b);
    NonNegProduct(c, b);
    assert c * b == b - a * b;
  }

  lemma NonNegProduct(a: real, b: real)
    requires 0.0 <= a && 0.0 <= b
    ensures 0.0 <= a * b
  {
  }

  /** `x` is in range and within `k` halves of a unit of the exact power. */
  ghost predicate Close(x: int, q: real, n: nat, k: nat) {
    0 <= x <= ONE && -(k as real * Ulp()) <= 2.0 * (Value(x) - Pow(q, n)) <= k as real * Ulp()
  }

  lemma ProductError(x: real, y: real, a: real, b: real, ea: real, eb: real)
    requires 0.0 <= y <= 1.0 && 0.0 <= a <= 1.0
    requires -ea <= 2.0 * (x - a) <= ea && -eb <= 2.0 * (y - b) <= eb
    ensures -(ea + eb) <= 2.0 * (x * y - a * b) <= ea + eb
  {
    Scaled(2.0 * (x - a), y, ea);
    Scaled(2.0 * (y - b), a, eb);
    assert 2.0 * (x * y - a * b) == (2.0 * (x - a)) * y + (2.0 * (y - b)) * a;
  }

  lemma MulRange(x: int, y: int)
    requires 0 <= x <= ONE && 0 <= y <= ONE
    ensures 0 <= ChopAndRound(x * y, ONE) <= ONE
  {
    hide ChopAndRound;
    Product(x, y);
    Product(ONE - x, y);
    assert (ONE - x) * y == ONE * y - x * y;
    RoundMono(0, x * y, ONE);
    RoundMono(x * y, ONE * ONE, ONE);
    RoundExact(0, ONE);
    RoundExact(ONE, ONE);
  }

  /** A product of two approximations: the errors add up, plus half a unit for rounding. */
  lemma MulClose(x: int, y: int, q: real, j: nat, k: nat, ej: nat, ek: nat)
    requires 0.0 <= q <= 1.0
    requires Close(x, q, j, ej) && Close(y, q, k, ek)
    ensures Mul(x, y).Some? && Close(Mul(x, y).value, q, j + k, ej + ek + 1)
  {
    hide ChopAndRound, Pow, Value, Fits;
    MulRange(x, y);
    UnitFits(ChopAndRound(x * y, ONE));
    MulValue(x, y);
    PowRange(q, j);
    ValueRange(y);
    var u := Ulp();
    ProductError(Value(x), Value(y), Pow(q, j), Pow(q, k), ej as real * u, ek as real * u);
    PowAdd(q, j, k);
    assert (ej + ek + 1) as real * u == ej as real * u + ek as real * u + u;
  }

  /** Multiplying by one changes nothing. */
  lemma MulOne(x: int)
    requires Fits(x)
    ensures Mul(x, ONE) == Some(x) && Mul(ONE, x) == Some(x)
  {
    hide ChopAndRound, Fits;
    RoundExact(x, ONE);
  }

  /** The number of products that may have rounded on the way to the `n`-th power. */
  function Products(n: nat): nat {
    if n == 0 then 0 else n - 1
  }

  lemma LastClose(d: int, tmp: int, q: real, e: nat, t: nat)
    requires 0.0 <= q <= 1.0 && e >= 1
    requires Close(d, q, e, e - 1) && Close(tmp, q, t, Products(t))
    requires t == 0 ==> tmp == ONE
    ensures Mul(d, tmp).Some?
    ensures Close(Mul(d, tmp).value, q, e + t, e + t - 1)
  {
    hide Mul, Pow, Value, Fits;
    if t == 0 {
      UnitFits(d);
      MulOne(d);
    } else {
      MulClose(d, tmp, q, e, t, e - 1, t - 1);
    }
  }

  lemma MulSwap(x: int, y: int)
    ensures Mul(x, y) == Mul(y, x)
  {
    assert x * y == y * x;
  }

  lemma Halved(i: nat, e: nat)
    ensures i * e == (i / 2) * (e + e) + (if i % 2 != 0 then e else 0)
  {
    assert i == 2 * (i / 2) + i % 2;
    var h := i / 2;
    assert (2 * h) * e == h * (e + e);
    assert (2 * h + 1) * e == (2 * h) * e + e;
  }

  /** The loop invariant: `d` approximates the power `e`, `tmp` the power `t`. */
  lemma {:induction false} PowLoopClose(i: nat, d: int, tmp: int, q: real, e: nat, t: nat)
    requires 0.0 <= q <= 1.0 && i >= 1 && e >= 1
    requires Close(d, q, e, e - 1) && Close(tmp, q, t, Products(t))
    requires t == 0 ==> tmp == ONE
    ensures PowLoop(i, d, tmp).Some?
    ensures i * e >= 1
    ensures Close(PowLoop(i, d, tmp).value, q, i * e + t, i * e + t - 1)
    decreases i
  {
    hide Mul, Close;
    if i == 1 {
      LastClose(d, tmp, q, e, t);
    } else {
      MulClose(d, d, q, e, e, e - 1, e - 1);
      Halved(i, e);
      if i % 2 != 0 {
        LastClose(d, tmp, q, e, t);
        MulSwap(tmp, d);
        PowLoopClose(i / 2, Mul(d, d).value, Mul(tmp, d).value, q, e + e, e + t);
      } else {
        PowLoopClose(i / 2, Mul(d, d).value, tmp, q, e + e, t);
      }
    }
  }

  /** For a base from zero to one, the n-th power is within (n-1)/2 units of the exact one. */
  lemma PowerError(d: int, n: nat)
    requires 0 <= d <= ONE
    ensures PowerInteger(d, n).Some? && Close(PowerInteger(d, n).value, Value(d), n, Products(n))
  {
    hide Mul, PowLoop;
    ValueRange(d);
    ValueRange(ONE);
    PowOne(Value(d));
    assert Close(ONE, Value(d), 0, 0) && Close(d, Value(d), 1, 0);
    if n == 2 {
      MulClose(d, d, Value(d), 1, 1, 0, 0);
    } else if n > 2 {
      PowLoopClose(n, d, ONE, Value(d), 1, 0);
    }
  }

  // ---- whole-number bases ----

  function IntPow(w: int, n: nat): int {
    if n == 0 then 1 else IntPow(w, n - 1) * w
  }

  lemma {:induction false} IntPowAdd(w: int, j: nat, k: nat)
    ensures IntPow(w, j + k) == IntPow(w, j) * IntPow(w, k)
  {
    if k > 0 {
      IntPowAdd(w, j, k - 1);
      var a, b := IntPow(w, j), IntPow(w, k - 1);
      assert (a * b) * w == a * (b * w);
    }
  }

  lemma AbsProduct(x: int, y: int)
    ensures Abs(x * y) == Abs(x) * Abs(y)
  {
    Product(Abs(x), Abs(y));
    assert (-x) * y == -(x * y) && x * (-y) == -(x * y) && (-x) * (-y) == x * y;
  }

  /** Powers of a whole number other than zero only grow in magnitude. */
  lemma {:induction false} IntPowGrows(w: int, j: nat, k: nat)
    requires j <= k && w != 0
    ensures 1 <= Abs(IntPow(w, j)) <= Abs(IntPow(w, k))
    decreases k
  {
    if k > 0 {
      if j < k {
        IntPowGrows(w, j, k - 1);
      } else {
        IntPowGrows(w, k - 1, k - 1);
      }
      AbsProduct(IntPow(w, k - 1), w);
      Product(Abs(IntPow(w, k - 1)), Abs(w) - 1);
      var a, b := Abs(IntPow(w, k - 1)), Abs(w);
      assert a * (b - 1) == a * b - a;
    }
  }

  /** The product of two whole numbers is exact, and overflows only if it is too large. */
  lemma MulWhole(a: int, b: int)
    ensures Mul(a * ONE, b * ONE) == if Fits(a * b * ONE) then Some(a * b * ONE) else None
  {
    hide ChopAndRound, Fits;
    assert (a * ONE) * (b * ONE) == (a * b * ONE) * ONE;
    RoundExact(a * b * ONE, ONE);
  }

  lemma FitsBelow(a: int, b: int)
    requires Abs(a) <= Abs(b) && Fits(b * ONE)
    ensures Fits(a * ONE)
  {
    hide Fits;
    FitsMono(a * ONE, b * ONE);
  }

  lemma {:induction false} PowLoopWhole(i: nat, w: int, e: nat, t: nat)
    requires i >= 1 && e >= 1 && w != 0
    ensures
      var r := IntPow(w, i * e + t) * ONE;
      PowLoop(i, IntPow(w, e) * ONE, IntPow(w, t) * ONE) == if Fits(r) then Some(r) else None
    decreases i
  {
    hide Mul, Fits, IntPow;
    var n := i * e + t;
    if i == 1 {
      MulWhole(IntPow(w, e), IntPow(w, t));
      IntPowAdd(w, e, t);
    } else {
      Halved(i, e);
      Product(i / 2 - 1, e + e);
      assert (i / 2 - 1) * (e + e) == (i / 2) * (e + e) - (e + e);
      MulWhole(IntPow(w, e), IntPow(w, e));
      IntPowAdd(w, e, e);
      var t' := if i % 2 != 0 then t + e else t;
      MulWhole(IntPow(w, t), IntPow(w, e));
      IntPowAdd(w, t, e);
      IntPowGrows(w, e + e, n);
      IntPowGrows(w, t', n);
      if Fits(IntPow(w, n) * ONE) {
        FitsBelow(IntPow(w, e + e), IntPow(w, n));
        FitsBelow(IntPow(w, t'), IntPow(w, n));
      }
      PowLoopWhole(i / 2, w, e + e, t');
    }
  }

  /** For a whole-number base the power is exact, and it panics exactly when the exact power does not fit. */
  lemma PowerWhole(w: int, n: nat)
    requires Fits(w * ONE)
    ensures
      var r := IntPow(w, n) * ONE;
      PowerInteger(w * ONE, n) == if Fits(r) then Some(r) else None
  {
    hide Mul, PowLoop, Fits;
    var e := IntPow(w, 1);
    assert IntPow(w, 0) == 1 && e == w;
    UnitFits(0);
    UnitFits(ONE);
    if n == 2 {
      MulWhole(w, w);
      IntPowAdd(w, 1, 1);
    } else if n > 2 {
      if w == 0 {
        PowLoopZero(n);
        IntPowZero(n);
      } else {
        PowLoopWhole(n, w, 1, 0);
      }
    }
  }

  lemma IntPowZero(n: nat)
    requires n > 0
    ensures IntPow(0, n) == 0
  {
    assert IntPow(0, n - 1) * 0 == 0;
  }

  lemma MulZero(x: int)
    ensures Mul(0, x) == Some(0) && Mul(x, 0) == Some(0)
  {
    hide Fits;
    assert 0 * x == 0 && x * 0 == 0;
    RoundExact(0, ONE);
    UnitFits(0);
  }

  lemma {:induction false} PowLoopZero(i: nat)
    requires i >= 1
    ensures forall tmp :: PowLoop(i, 0, tmp) == Some(0)
    decreases i
  {
    hide Mul;
    forall x { MulZero(x); }
    if i > 1 {
      PowLoopZero(i / 2);
    }
  }

  // ---- order ----

  lemma ProductMono(a: int, b: int, c: int, d: int)
    requires 0 <= a <= b && 0 <= c <= d
    ensures 0 <= a * c <= b * d
  {
    Product(a, c);
    Product(b - a, c);
    Product(b, d - c);
    assert (b - a) * c == b * c - a * c;
    assert b * (d - c) == b * d - b * c;
  }

  lemma MulMono(a: int, b: int, c: int, d: int)
    requires 0 <= a <= b && 0 <= c <= d && Mul(b, d).Some?
    ensures Mul(a, c).Some? && 0 <= Mul(a, c).value <= Mul(b, d).value
  {
    hide ChopAndRound, Fits;
    ProductMono(a, b, c, d);
    RoundMono(a * c, b * d, ONE);
    RoundMono(0, a * c, ONE);
    RoundExact(0, ONE);
    FitsMono(ChopAndRound(a * c, ONE), ChopAndRound(b * d, ONE));
  }

  lemma {:induction false} PowLoopMono(i: nat, d: int, d': int, tmp: int, tmp': int)
    requires 0 <= d <= d' && 0 <= tmp <= tmp' && PowLoop(i, d', tmp').Some?
    ensures PowLoop(i, d, tmp).Some? && 0 <= PowLoop(i, d, tmp).value <= PowLoop(i, d', tmp').value
    decreases i
  {
    hide Mul;
    if i <= 1 {
      MulMono(d, d', tmp, tmp');
    } else {
      MulMono(d, d', d, d');
      if i % 2 != 0 {
        MulMono(tmp, tmp', d, d');
        PowLoopMono(i / 2, Mul(d, d).value, Mul(d', d').value, Mul(tmp, d).value, Mul(tmp', d').value);
      } else {
        PowLoopMono(i / 2, Mul(d, d).value, Mul(d', d').value, tmp, tmp');
      }
    }
  }

  /** For bases from zero up, a larger base has a larger power, although every product rounds. */
  lemma PowerMono(d: int, d': int, n: nat)
    requires 0 <= d <= d' && PowerInteger(d', n).Some?
    ensures PowerInteger(d, n).Some? && PowerInteger(d, n).value <= PowerInteger(d', n).value
  {
    hide Mul, PowLoop;
    if n == 2 {
      MulMono(d, d', d, d');
    } else if n > 2 {
      PowLoopMono(n, d, d', ONE, ONE);
    }
  }
}
