/**
 How close the computed logarithm is to the true one, said without logarithms: the number, raised
 to the power 2^i, lies between two powers of two that the computed digits name.
 */
module Log2Accuracy {
  import opened Binary
  import opened Rounding
  import opened BigDec
  import opened RealPow
  import opened Log2

  /** f^k times 2^n */
  ghost function Grown(f: real, k: nat, n: nat): real {
    Times(Pow(f, k), Pow(2.0, n))
  }

  lemma GrownProduct(f: real, k: nat, n: nat, k': nat, n': nat)
    ensures Times(Grown(f, k, n), Grown(f, k', n')) == Grown(f, k + k', n + n')
  {
    hide Pow, Times;
    TimesSwap(Pow(f, k), Pow(2.0, n), Pow(f, k'), Pow(2.0, n'));
    PowSum(f, k, k');
    PowSum(2.0, n, n');
  }

  lemma GrownNonNeg(f: real, k: nat, n: nat)
    requires f >= 0.0
    ensures Grown(f, k, n) >= 0.0
  {
    hide Pow, Times;
    PowNonNeg(f, k);
    PowNonNeg(2.0, n);
    TimesMono(Pow(f, k), Pow(f, k), Pow(2.0, n), Pow(2.0, n));
  }

  // ---- values ----

  lemma ValueMono(x: int, y: int)
    requires x <= y
    ensures Value(x) <= Value(y)
  {
    Stretch(x as real, y as real, Ulp());
  }

  lemma ValueSum(x: int, y: int)
    ensures Value(x + y) == Value(x) + Value(y)
  {
    assert (x as real + y as real) * Ulp() == x as real * Ulp() + y as real * Ulp();
  }

  lemma UnitValue()
    ensures Value(1) == Ulp()
  {
  }

  lemma MantissaValue(x: int)
    requires Mantissa(x)
    ensures 1.0 <= Value(x) <= 2.0
  {
    hide Value;
    ValueRange(x);
    ValueMono(ONE, x);
    ValueMono(x, TWO);
    ValueSum(ONE, ONE);
  }

  // ---- one squaring ----

  /** The digit that one squaring yields. */
  function Bit(x: int): nat {
    if Square(x) >= TWO then 1 else 0
  }

  ghost function TwoTo(b: nat): real {
    if b == 0 then 1.0 else 2.0
  }

  lemma Proportion(u: real, next: real)
    ensures Times(1.0 - u, next) == next - Times(u, next)
    ensures Times(1.0 + u, next) == next + Times(u, next)
    ensures u > 0.0 && next >= 1.0 ==> Times(u, next) >= u
    ensures u > 0.0 && next >= 2.0 ==> Times(u, next) >= u + u
  {
    if u > 0.0 && next >= 1.0 { Stretch(1.0, next, u); }
    if u > 0.0 && next >= 2.0 { Stretch(2.0, next, u); }
  }

  lemma ProportionalGap(u: real, next: real, v: real, sq: real)
    requires u > 0.0 && 1.0 <= next <= v && -u <= 2.0 * (v - sq) <= u
    requires v == next || (next >= 2.0 && v <= next + u)
    ensures Times(1.0 - u, next) <= sq <= Times(1.0 + u, next)
  {
    hide Times;
    Proportion(u, next);
  }

  lemma SquareValue(x: int)
    ensures -Ulp() <= 2.0 * (Value(Square(x)) - Times(Value(x), Value(x))) <= Ulp()
  {
    hide ChopAndRound, Value;
    MulValue(x, x);
  }

  lemma TwiceValue(n: int)
    ensures Times(2.0, Value(n)) == Value(2 * n)
  {
    hide Value;
    ValueSum(n, n);
  }

  /** The next mantissa, with the digit put back, is the square up to one unit in proportion. */
  lemma SquareStep(x: int)
    requires Mantissa(x)
    ensures
      var next := Times(TwoTo(Bit(x)), Value(Next(x)));
      Times(1.0 - Ulp(), next) <= Times(Value(x), Value(x)) <= Times(1.0 + Ulp(), next)
  {
    hide Square, Value, Times;
    SquareRange(x);
    SquareValue(x);
    var r, n, u := Square(x), Next(x), Ulp();
    MantissaValue(n);
    if Bit(x) == 0 {
      TimesOne(Value(n));
      ProportionalGap(u, Value(n), Value(r), Times(Value(x), Value(x)));
    } else {
      TwiceValue(n);
      ValueMono(2 * n, r);
      ValueMono(r, 2 * n + 1);
      ValueSum(2 * n, 1);
      UnitValue();
      ValueSum(n, n);
      ProportionalGap(u, Value(2 * n), Value(r), Times(Value(x), Value(x)));
    }
  }

  // ---- all squarings ----

  /** The digits as one number: the first one counts most. */
  function Bits(i: nat, x: int): nat {
    if i == 0 then 0 else Bit(x) * Pow2(i - 1) + Bits(i - 1, Next(x))
  }

  lemma BitPower(f: real, b: nat, n: nat)
    requires b <= 1
    ensures Times(Pow(f, n), Pow(TwoTo(b), n)) == Grown(f, n, b * n)
  {
    hide Times, Pow;
    if b == 0 {
      PowOfOne(n);
      PowZero(2.0);
    }
  }

  lemma PowTimes3(f: real, t: real, y: real, n: nat)
    ensures Pow(Times(f, Times(t, y)), n) == Times(Times(Pow(f, n), Pow(t, n)), Pow(y, n))
  {
    hide Times, Pow;
    PowTimes(f, Times(t, y), n);
    PowTimes(t, y, n);
    TimesAssoc(Pow(f, n), Pow(t, n), Pow(y, n));
  }

  lemma SquareNonNeg(v: real)
    ensures Times(v, v) >= 0.0
  {
  }

  /** One more squaring: if v * v is at most f * 2^b * y, a bound on powers of y gives one on powers of v. */
  lemma StepUpper(f: real, b: nat, v: real, y: real, h: nat, k: nat, n: nat)
    requires b <= 1 && f >= 0.0 && y >= 0.0
    requires Times(v, v) <= Times(f, Times(TwoTo(b), y))
    requires Pow(y, h) <= Grown(f, k, n)
    ensures Pow(v, 2 * h) <= Grown(f, h + k, b * h + n)
  {
    hide Pow, Grown, Times, TwoTo;
    SquareNonNeg(v);
    PowSquare(v, h);
    PowMono(Times(v, v), Times(f, Times(TwoTo(b), y)), h);
    PowTimes3(f, TwoTo(b), y, h);
    BitPower(f, b, h);
    GrownNonNeg(f, h, b * h);
    PowNonNeg(y, h);
    TimesMono(Grown(f, h, b * h), Grown(f, h, b * h), Pow(y, h), Grown(f, k, n));
    GrownProduct(f, h, b * h, k, n);
  }

  lemma StepLower(f: real, b: nat, v: real, y: real, h: nat, k: nat, n: nat)
    requires b <= 1 && f >= 0.0 && y >= 0.0
    requires Times(f, Times(TwoTo(b), y)) <= Times(v, v)
    requires Grown(f, k, n) <= Pow(y, h)
    ensures Grown(f, h + k, b * h + n) <= Pow(v, 2 * h)
  {
    hide Pow, Grown, Times;
    var t := TwoTo(b);
    TimesMono(t, t, y, y);
    TimesMono(f, f, Times(t, y), Times(t, y));
    PowSquare(v, h);
    PowMono(Times(f, Times(t, y)), Times(v, v), h);
    PowTimes3(f, t, y, h);
    BitPower(f, b, h);
    GrownNonNeg(f, h, b * h);
    GrownNonNeg(f, k, n);
    TimesMono(Grown(f, h, b * h), Grown(f, h, b * h), Grown(f, k, n), Pow(y, h));
    GrownProduct(f, h, b * h, k, n);
  }

  lemma NoSquaring(x: int)
    requires Mantissa(x)
    ensures Grown(1.0 - Ulp(), 0, 0) <= Pow(Value(x), 1) <= Grown(1.0 + Ulp(), 0, 1)
  {
    hide Value, Times;
    MantissaValue(x);
    PowOne(Value(x));
    PowOne(2.0);
    TimesOne(1.0);
    TimesOne(2.0);
  }

  /** A mantissa raised to the power 2^i is at most the power of two one above the one that its digits name. */
  lemma {:induction false} DigitsAbove(i: nat, x: int)
    requires Mantissa(x)
    ensures Pow(Value(x), Pow2(i)) <= Grown(1.0 + Ulp(), Pow2(i) - 1, Bits(i, x) + 1)
    decreases i
  {
    hide Square, Next, Value, Grown, Pow, Times, TwoTo;
    if i == 0 {
      NoSquaring(x);
    } else {
      var y, h := Next(x), Pow2(i - 1);
      SquareRange(x);
      SquareStep(x);
      MantissaValue(y);
      UlpBelowOne();
      DigitsAbove(i - 1, y);
      StepUpper(1.0 + Ulp(), Bit(x), Value(x), Value(y), h, h - 1, Bits(i - 1, y) + 1);
    }
  }

  /** A mantissa raised to the power 2^i is at least the power of two that its digits name. */
  lemma {:induction false} DigitsBelow(i: nat, x: int)
    requires Mantissa(x)
    ensures Grown(1.0 - Ulp(), Pow2(i) - 1, Bits(i, x)) <= Pow(Value(x), Pow2(i))
    decreases i
  {
    hide Square, Next, Value, Grown, Pow, Times, TwoTo;
    if i == 0 {
      NoSquaring(x);
    } else {
      var y, h := Next(x), Pow2(i - 1);
      SquareRange(x);
      SquareStep(x);
      MantissaValue(y);
      UlpBelowOne();
      DigitsBelow(i - 1, y);
      StepLower(1.0 - Ulp(), Bit(x), Value(x), Value(y), h, h - 1, Bits(i - 1, y));
    }
  }

  // ---- the digits that were truncated ----

  lemma {:induction false} BitsBelow(i: nat, x: int)
    ensures Bits(i, x) < Pow2(i)
    decreases i
  {
    hide Square, Next;
    if i > 0 { BitsBelow(i - 1, Next(x)); }
  }

  lemma LossStep(b: int, bits: nat, digits: int, p: nat, i: nat)
    requires b >= 0 && bits <= p
    requires 0 <= 2 * (b / 2) * bits - digits * p <= i * p
    ensures 0 <= b * bits - digits * p <= (i + 1) * p
  {
    var h := b / 2;
    assert b == 2 * h || b == 2 * h + 1;
    assert (2 * h + 1) * bits == 2 * h * bits + bits;
    assert (i + 1) * p == i * p + p;
  }

  lemma LossTotal(b: int, bit: nat, bits: nat, digits: int, p: nat, i: nat)
    requires bit <= 1
    requires 0 <= b * bits - digits * p <= i * p
    ensures 0 <= 2 * b * (bit * p + bits) - ((if bit == 1 then b else 0) + digits) * (2 * p) <= i * (2 * p)
  {
    assert i * (2 * p) == 2 * (i * p);
    assert digits * (2 * p) == 2 * (digits * p);
    assert 2 * b * bits == 2 * (b * bits);
    if bit == 1 {
      assert 2 * b * (p + bits) == b * (2 * p) + 2 * b * bits;
      assert (b + digits) * (2 * p) == b * (2 * p) + digits * (2 * p);
    }
  }

  /** Halving the worth of a digit rounds down: less than one unit is lost per digit. */
  lemma {:induction false} DigitsLoss(i: nat, x: int, b: int)
    requires b >= 0
    ensures 0 <= 2 * b * Bits(i, x) - Digits(i, x, b) * Pow2(i) <= i * Pow2(i)
    decreases i
  {
    hide Square, Next;
    if i == 0 {
      assert 2 * b * 0 == 0;
    } else {
      var p, bits, digits := Pow2(i - 1), Bits(i - 1, Next(x)), Digits(i - 1, Next(x), b / 2);
      DigitsLoss(i - 1, Next(x), b / 2);
      BitsBelow(i - 1, Next(x));
      LossStep(b, bits, digits, p, i - 1);
      LossTotal(b, Bit(x), bits, digits, p, i);
    }
  }

  // ---- the exponent ----

  lemma {:induction false} ScaleUpExact(x: int)
    requires 0 < x < TWO
    ensures ScaleUp(x).exponent <= 0 && ScaleUp(x).mantissa == x * Pow2(-ScaleUp(x).exponent)
    decreases ONE - x
  {
    if x < ONE {
      ScaleUpExact(2 * x);
      var k: nat := -ScaleUp(2 * x).exponent;
      assert Pow2(k + 1) == 2 * Pow2(k);
      assert (2 * x) * Pow2(k) == x * Pow2(k + 1);
    }
  }

  lemma {:induction false} ScaleDownFloor(x: int)
    requires x >= ONE
    ensures
      var s := ScaleDown(x);
      s.exponent >= 0 && s.mantissa * Pow2(s.exponent) <= x < (s.mantissa + 1) * Pow2(s.exponent)
    decreases x
  {
    if x >= TWO {
      ScaleDownFloor(x / 2);
      var m, k: nat := ScaleDown(x / 2).mantissa, ScaleDown(x / 2).exponent;
      assert Pow2(k + 1) == 2 * Pow2(k);
      assert m * Pow2(k + 1) == 2 * (m * Pow2(k));
      assert (m + 1) * Pow2(k + 1) == 2 * ((m + 1) * Pow2(k));
    }
  }

  /** The exponent is the whole part of the true logarithm. */
  lemma ExponentIsFloor(x: int)
    requires x > 0
    ensures
      var e := Normalize(x).exponent;
      if e >= 0 then Pow2(e) * ONE <= x < Pow2(e + 1) * ONE else ONE <= x * Pow2(-e) < TWO
  {
    hide ScaleUp, ScaleDown;
    NormalizeRange(x);
    if x < ONE {
      ScaleUpRange(x);
      ScaleUpExact(x);
    } else {
      ScaleDownFloor(x);
      var m, e: nat := ScaleDown(x).mantissa, ScaleDown(x).exponent;
      Product(m - ONE, Pow2(e));
      Product(TWO - 1 - m, Pow2(e));
      assert (m - ONE) * Pow2(e) == m * Pow2(e) - ONE * Pow2(e);
      assert (TWO - 1 - m) * Pow2(e) == TWO * Pow2(e) - (m + 1) * Pow2(e);
    }
  }

  // ---- the logarithm ----

  lemma {:induction false} ValueScaled(x: int, k: nat)
    ensures Value(x * Pow2(k)) == Times(Value(x), Pow(2.0, k))
  {
    hide Value, Pow;
    if k == 0 {
      PowZero(2.0);
      TimesOne(Value(x));
    } else {
      ValueScaled(x, k - 1);
      var y := x * Pow2(k - 1);
      assert x * Pow2(k) == 2 * y;
      TwiceValue(y);
      PowStep(2.0, k);
      hide Times;
      TimesAssoc(Value(x), Pow(2.0, k - 1), 2.0);
      TimesComm(2.0, Value(y));
    }
  }

  lemma {:induction false} PowPow(q: real, j: nat, k: nat)
    ensures Pow(Pow(q, j), k) == Pow(q, j * k)
  {
    hide Pow, Times;
    if k == 0 {
      PowZero(Pow(q, j));
      PowZero(q);
    } else {
      PowPow(q, j, k - 1);
      PowStep(Pow(q, j), k);
      PowSum(q, j * (k - 1), j);
      assert j * k == j * (k - 1) + j;
    }
  }

  /** A power of two taken out of the base. */
  lemma ScaledPower(v: real, e: nat, k: nat)
    ensures Pow(Times(v, Pow(2.0, e)), k) == Times(Pow(v, k), Pow(2.0, e * k))
  {
    hide Pow, Times;
    PowTimes(v, Pow(2.0, e), k);
    PowPow(2.0, e, k);
  }

  lemma GrownTimes(f: real, k: nat, n: nat, e: nat)
    ensures Times(Grown(f, k, n), Pow(2.0, e)) == Grown(f, k, n + e)
    ensures Times(Grown(f, k, n), Pow(f, e)) == Grown(f, k + e, n)
  {
    hide Pow, Times;
    TimesAssoc(Pow(f, k), Pow(2.0, n), Pow(2.0, e));
    PowSum(2.0, n, e);
    TimesAssoc(Pow(f, k), Pow(2.0, n), Pow(f, e));
    TimesComm(Pow(2.0, n), Pow(f, e));
    TimesAssoc(Pow(f, k), Pow(f, e), Pow(2.0, n));
    PowSum(f, k, e);
  }

  /** Rounding the mantissa down costs at most one unit in proportion. */
  lemma DownValue(x: int, m: int, e: nat)
    requires Mantissa(m) && m * Pow2(e) <= x < (m + 1) * Pow2(e)
    ensures Times(Value(m), Pow(2.0, e)) <= Value(x) <= Times(Times(Value(m), 1.0 + Ulp()), Pow(2.0, e))
  {
    hide Value, Pow, Times;
    ValueScaled(m, e);
    ValueScaled(m + 1, e);
    ValueMono(m * Pow2(e), x);
    ValueMono(x, (m + 1) * Pow2(e));
    ValueSum(m, 1);
    UnitValue();
    MantissaValue(m);
    Proportion(Ulp(), Value(m));
    TimesComm(1.0 + Ulp(), Value(m));
    PowNonNeg(2.0, e);
    TimesMono(Value(m + 1), Times(Value(m), 1.0 + Ulp()), Pow(2.0, e), Pow(2.0, e));
  }

  /** Numbers from one up. */
  lemma DownAccuracy(x: int, m: int, e: nat, i: nat)
    requires Mantissa(m) && m * Pow2(e) <= x < (m + 1) * Pow2(e)
    ensures
      var k, a := Pow2(i), e * Pow2(i) + Bits(i, m);
      Grown(1.0 - Ulp(), k - 1, a) <= Pow(Value(x), k) <= Grown(1.0 + Ulp(), 2 * k - 1, a + 1)
  {
    DownBelow(x, m, e, i);
    DownAbove(x, m, e, i);
  }

  lemma DownBelow(x: int, m: int, e: nat, i: nat)
    requires Mantissa(m) && m * Pow2(e) <= x < (m + 1) * Pow2(e)
    ensures Grown(1.0 - Ulp(), Pow2(i) - 1, e * Pow2(i) + Bits(i, m)) <= Pow(Value(x), Pow2(i))
  {
    hide Value, Pow, Times, Grown, Bits, Pow2, Mantissa;
    var k, n, v := Pow2(i), Bits(i, m), Value(m);
    DigitsBelow(i, m);
    DownValue(x, m, e);
    MantissaValue(m);
    UlpBelowOne();
    PowNonNeg(2.0, e);
    PowNonNeg(2.0, e * k);
    TimesMono(v, v, Pow(2.0, e), Pow(2.0, e));
    PowMono(Times(v, Pow(2.0, e)), Value(x), k);
    ScaledPower(v, e, k);
    GrownNonNeg(1.0 - Ulp(), k - 1, n);
    TimesMono(Grown(1.0 - Ulp(), k - 1, n), Pow(v, k), Pow(2.0, e * k), Pow(2.0, e * k));
    GrownTimes(1.0 - Ulp(), k - 1, n, e * k);
  }

  lemma DownAbove(x: int, m: int, e: nat, i: nat)
    requires Mantissa(m) && m * Pow2(e) <= x < (m + 1) * Pow2(e)
    ensures Pow(Value(x), Pow2(i)) <= Grown(1.0 + Ulp(), 2 * Pow2(i) - 1, e * Pow2(i) + Bits(i, m) + 1)
  {
    hide Value, Pow, Times, Grown, Bits, Pow2, Mantissa;
    var k, n, f, v := Pow2(i), Bits(i, m), 1.0 + Ulp(), Value(m);
    DigitsAbove(i, m);
    DownValue(x, m, e);
    MantissaValue(m);
    UlpBelowOne();
    PowNonNeg(2.0, e);
    PowNonNeg(2.0, e * k);
    TimesMono(v, v, Pow(2.0, e), Pow(2.0, e));
    PowMono(Value(x), Times(Times(v, f), Pow(2.0, e)), k);
    ScaledPower(Times(v, f), e, k);
    PowTimes(v, f, k);
    PowNonNeg(v, k);
    PowNonNeg(f, k);
    TimesMono(Pow(v, k), Grown(f, k - 1, n + 1), Pow(f, k), Pow(f, k));
    GrownTimes(f, k - 1, n + 1, k);
    TimesMono(Times(Pow(v, k), Pow(f, k)), Grown(f, 2 * k - 1, n + 1), Pow(2.0, e * k), Pow(2.0, e * k));
    GrownTimes(f, 2 * k - 1, n + 1, e * k);
  }

  /** Numbers below one. */
  lemma UpAccuracy(x: int, m: int, e: nat, i: nat)
    requires Mantissa(m) && m == x * Pow2(e)
    ensures
      var k, a := Pow2(i), Bits(i, m);
      Grown(1.0 - Ulp(), k - 1, a) <= Times(Pow(Value(x), k), Pow(2.0, e * k)) <= Grown(1.0 + Ulp(), k - 1, a + 1)
  {
    hide Value, Pow, Times, Grown, Bits;
    DigitsBelow(i, m);
    DigitsAbove(i, m);
    ValueScaled(x, e);
    ScaledPower(Value(x), e, Pow2(i));
  }

  lemma {:induction false} GrownMore(f: real, k: nat, k': nat, n: nat)
    requires f >= 1.0 && k <= k'
    ensures Grown(f, k, n) <= Grown(f, k', n)
  {
    hide Pow, Times, Grown;
    PowOfOne(k' - k);
    PowMono(1.0, f, k' - k);
    GrownNonNeg(f, k, n);
    TimesMono(Grown(f, k, n), Grown(f, k, n), 1.0, Pow(f, k' - k));
    TimesOne(Grown(f, k, n));
    GrownTimes(f, k, n, k' - k);
  }

  /**
   The accuracy of the logarithm. With K = 2^300 there are a and b such that
     - the computed logarithm is (a - b) / K, rounded down by at most 300 units of the last place;
     - the number itself, raised to the power K, is 2^(a - b) up to a factor of 2 and a relative
       error of one unit of the last place, in the K-th power, downwards, and of two, upwards.
   */
  lemma LogAccuracy(x: int) returns (a: nat, b: nat)
    requires x > 0
    ensures
      var K := Pow2(MAX_ITERATIONS);
      Log2.Log2(x) * K <= (a - b) * ONE <= (Log2.Log2(x) + MAX_ITERATIONS) * K
    ensures
      var K := Pow2(MAX_ITERATIONS);
      Grown(1.0 - Ulp(), K - 1, a) <= Times(Pow(Value(x), K), Pow(2.0, b)) <= Grown(1.0 + Ulp(), 2 * K - 1, a + 1)
  {
    hide ScaleUp, ScaleDown, Digits, Bits, Value, Pow, Times, Grown, Pow2;
    var s, i := Normalize(x), MAX_ITERATIONS;
    var K, n := Pow2(i), Bits(i, s.mantissa);
    NormalizeRange(x);
    DigitsLoss(i, s.mantissa, ONE / 2);
    if x < ONE {
      ScaleUpRange(x);
      ScaleUpExact(x);
      var e: nat := -s.exponent;
      a, b := n, e * K;
      UpAccuracy(x, s.mantissa, e, i);
      GrownMore(1.0 + Ulp(), K - 1, 2 * K - 1, n + 1);
    } else {
      ScaleDownFloor(x);
      var e: nat := s.exponent;
      a, b := e * K + n, 0;
      DownAccuracy(x, s.mantissa, e, i);
      PowZero(2.0);
      TimesOne(Pow(Value(x), K));
    }
    LogScaled(s.exponent, Digits(i, s.mantissa, ONE / 2), n, K, a - b);
  }

  lemma LogScaled(e: int, digits: int, n: int, k: nat, c: int)
    requires 0 <= ONE * n - digits * k <= MAX_ITERATIONS * k
    requires c == e * k + n
    ensures (e * ONE + digits) * k <= c * ONE <= (e * ONE + digits + MAX_ITERATIONS) * k
  {
    assert (e * ONE + digits) * k == e * k * ONE + digits * k;
    assert c * ONE == e * k * ONE + n * ONE;
    assert (e * ONE + digits + MAX_ITERATIONS) * k == (e * ONE + digits) * k + MAX_ITERATIONS * k;
  }
}
