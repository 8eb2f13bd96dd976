/** How close the computed powers of bases above one are to the exact ones, and what the sign of the base does. */
module PowerAccuracy {
  import opened Binary
  import opened Options
  import opened Rounding
  import opened BigDec
  import opened RealPow
  import opened Power

  // ---- bases from one up ----

  /** The n-th power of `q`, times `f` for each of `k` products. */
  ghost function Spread(q: real, n: nat, f: real, k: nat): real {
    Times(Pow(q, n), Pow(f, k))
  }

  /** `x` is at least one, and in proportion within `k` units of the exact power. */
  ghost predicate Near(x: int, q: real, n: nat, k: nat) {
    x >= ONE && Spread(q, n, 1.0 - Ulp(), k) <= Value(x) <= Spread(q, n, 1.0 + Ulp(), k)
  }

  lemma SpreadProduct(q: real, j: nat, k: nat, f: real, ej: nat, ek: nat)
    ensures Times(Spread(q, j, f, ej), Spread(q, k, f, ek)) == Spread(q, j + k, f, ej + ek)
  {
    hide Times, Pow;
    TimesSwap(Pow(q, j), Pow(f, ej), Pow(q, k), Pow(f, ek));
    PowSum(q, j, k);
    PowSum(f, ej, ek);
  }

  lemma SpreadMore(q: real, n: nat, f: real, k: nat)
    ensures Spread(q, n, f, k + 1) == Times(Spread(q, n, f, k), f)
  {
    hide Times, Pow;
    PowStep(f, k + 1);
    TimesAssoc(Pow(q, n), Pow(f, k), f);
  }

  lemma SpreadNonNeg(q: real, n: nat, f: real, k: nat)
    requires q >= 0.0 && f >= 0.0
    ensures Spread(q, n, f, k) >= 0.0
  {
    hide Times, Pow;
    PowNonNeg(q, n);
    PowNonNeg(f, k);
    TimesMono(Pow(q, n), Pow(q, n), Pow(f, k), Pow(f, k));
  }

  /** A number within half of `u` of a product that is at least one is within `u` of it in proportion. */
  lemma InProportion(v: real, p: real, u: real)
    requires u > 0.0 && p >= 1.0 && -u <= 2.0 * (v - p) <= u
    ensures Times(p, 1.0 - u) <= v <= Times(p, 1.0 + u)
  {
    Stretch(1.0, p, u);
    assert p * (1.0 - u) == p - p * u && p * (1.0 + u) == p + p * u;
  }

  lemma AtLeastOne(x: int)
    requires x >= ONE
    ensures Value(x) >= 1.0
  {
    ValueRange(ONE);
    Stretch(ONE as real, x as real, Ulp());
  }

  lemma ProductAtLeastOne(x: int, y: int)
    requires x >= ONE && y >= ONE
    ensures ChopAndRound(x * y, ONE) >= ONE
  {
    hide ChopAndRound;
    Product(x - ONE, y - ONE);
    assert (x - ONE) * (y - ONE) == x * y - ONE * x - ONE * y + ONE * ONE;
    RoundMono(ONE * ONE, x * y, ONE);
    RoundExact(ONE, ONE);
  }

  lemma UnitProduct(a: real, b: real)
    requires a >= 1.0 && b >= 1.0
    ensures Times(a, b) >= 1.0
  {
    hide Times;
    TimesMono(1.0, a, 1.0, b);
    TimesOne(1.0);
  }

  /** A product of two approximations: the factors multiply, with one more for rounding. */
  lemma MulNear(x: int, y: int, q: real, j: nat, k: nat, ej: nat, ek: nat)
    requires q >= 0.0 && Near(x, q, j, ej) && Near(y, q, k, ek) && Mul(x, y).Some?
    ensures Near(Mul(x, y).value, q, j + k, ej + ek + 1)
  {
    hide ChopAndRound, Value, Spread, Times, Fits;
    var u, r, p := Ulp(), ChopAndRound(x * y, ONE), Times(Value(x), Value(y));
    UlpBelowOne();
    ProductAtLeastOne(x, y);
    AtLeastOne(x);
    AtLeastOne(y);
    UnitProduct(Value(x), Value(y));
    assert -u <= 2.0 * (Value(r) - p) <= u by { RoundedTimes(x, y); }
    InProportion(Value(r), p, u);
    NearBelow(x, y, q, j, k, ej, ek);
    NearAbove(x, y, q, j, k, ej, ek);
  }

  lemma RoundedTimes(x: int, y: int)
    ensures -Ulp() <= 2.0 * (Value(ChopAndRound(x * y, ONE)) - Times(Value(x), Value(y))) <= Ulp()
  {
    hide ChopAndRound, Value;
    MulValue(x, y);
  }

  lemma NearBelow(x: int, y: int, q: real, j: nat, k: nat, ej: nat, ek: nat)
    requires q >= 0.0 && Near(x, q, j, ej) && Near(y, q, k, ek)
    ensures Spread(q, j + k, 1.0 - Ulp(), ej + ek + 1) <= Times(Times(Value(x), Value(y)), 1.0 - Ulp())
  {
    hide Value, Spread, Times;
    var f := 1.0 - Ulp();
    UlpBelowOne();
    SpreadNonNeg(q, j, f, ej);
    SpreadNonNeg(q, k, f, ek);
    TimesMono(Spread(q, j, f, ej), Value(x), Spread(q, k, f, ek), Value(y));
    SpreadProduct(q, j, k, f, ej, ek);
    TimesMono(Spread(q, j + k, f, ej + ek), Times(Value(x), Value(y)), f, f);
    SpreadMore(q, j + k, f, ej + ek);
  }

  lemma NearAbove(x: int, y: int, q: real, j: nat, k: nat, ej: nat, ek: nat)
    requires q >= 0.0 && Near(x, q, j, ej) && Near(y, q, k, ek)
    ensures Times(Times(Value(x), Value(y)), 1.0 + Ulp()) <= Spread(q, j + k, 1.0 + Ulp(), ej + ek + 1)
  {
    hide Value, Spread, Times;
    var f := 1.0 + Ulp();
    UlpBelowOne();
    AtLeastOne(x);
    AtLeastOne(y);
    TimesMono(Value(x), Spread(q, j, f, ej), Value(y), Spread(q, k, f, ek));
    SpreadProduct(q, j, k, f, ej, ek);
    TimesMono(Times(Value(x), Value(y)), Spread(q, j + k, f, ej + ek), f, f);
    SpreadMore(q, j + k, f, ej + ek);
  }

  lemma MulOneNear(d: int)
    requires Mul(d, ONE).Some?
    ensures Mul(d, ONE) == Some(d)
  {
    hide ChopAndRound, Fits;
    RoundExact(d, ONE);
  }

  lemma LastNear(d: int, tmp: int, q: real, e: nat, t: nat)
    requires q >= 0.0 && e >= 1 && Mul(d, tmp).Some?
    requires Near(d, q, e, e - 1) && Near(tmp, q, t, Products(t))
    requires t == 0 ==> tmp == ONE
    ensures Near(Mul(d, tmp).value, q, e + t, e + t - 1)
  {
    hide Mul, Spread, Value;
    if t == 0 {
      MulOneNear(d);
    } else {
      MulNear(d, tmp, q, e, t, e - 1, t - 1);
    }
  }

  /** The loop invariant: `d` approximates the power `e`, `tmp` the power `t`. */
  lemma {:induction false} PowLoopNear(i: nat, d: int, tmp: int, q: real, e: nat, t: nat)
    requires q >= 0.0 && i >= 1 && e >= 1
    requires Near(d, q, e, e - 1) && Near(tmp, q, t, Products(t))
    requires t == 0 ==> tmp == ONE
    requires PowLoop(i, d, tmp).Some?
    ensures i * e >= 1
    ensures Near(PowLoop(i, d, tmp).value, q, i * e + t, i * e + t - 1)
    decreases i
  {
    hide Mul, Near;
    if i == 1 {
      LastNear(d, tmp, q, e, t);
    } else {
      MulNear(d, d, q, e, e, e - 1, e - 1);
      Halved(i, e);
      if i % 2 != 0 {
        MulSwap(tmp, d);
        LastNear(d, tmp, q, e, t);
        PowLoopNear(i / 2, Mul(d, d).value, Mul(tmp, d).value, q, e + e, e + t);
      } else {
        PowLoopNear(i / 2, Mul(d, d).value, tmp, q, e + e, t);
      }
    }
  }

  lemma NearExact(d: int)
    requires d >= ONE
    ensures Near(ONE, Value(d), 0, 0) && Near(d, Value(d), 1, 0) && Value(d) >= 0.0
  {
    hide Pow, Times;
    var q := Value(d);
    AtLeastOne(d);
    ValueRange(ONE);
    PowOne(q);
    PowZero(1.0 - Ulp());
    PowZero(1.0 + Ulp());
    TimesOne(1.0);
    TimesOne(q);
  }

  /** For a base from one up, the n-th power is within n-1 units of the exact one in proportion, unless it overflows. */
  lemma PowerAbove(d: int, n: nat)
    requires d >= ONE && PowerInteger(d, n).Some?
    ensures Near(PowerInteger(d, n).value, Value(d), n, Products(n))
  {
    hide Mul, PowLoop, Near, Value;
    NearExact(d);
    if n == 2 {
      MulNear(d, d, Value(d), 1, 1, 0, 0);
    } else if n > 2 {
      PowLoopNear(n, d, ONE, Value(d), 1, 0);
    }
  }

  /** No power overflows whose base is at most a whole number with a power that fits. */
  lemma PowerFits(d: int, w: int, n: nat)
    requires 0 <= d <= w * ONE && Fits(w * ONE) && Fits(IntPow(w, n) * ONE)
    ensures PowerInteger(d, n).Some? && PowerInteger(d, n).value <= IntPow(w, n) * ONE
  {
    hide PowerInteger, Fits, IntPow;
    PowerWhole(w, n);
    PowerMono(d, w * ONE, n);
  }

  // ---- negative bases ----

  function Negated(r: Option<int>): Option<int> {
    if r.None? then None else Some(0 - r.value)
  }

  /** Rounding does not depend on the sign. */
  lemma RoundNegated(x: int)
    ensures ChopAndRound(0 - x, ONE) == 0 - ChopAndRound(x, ONE)
  {
    hide ChopAndRound;
    var r := ChopAndRound(x, ONE);
    RoundNearest(x, ONE);
    assert Nearest(0 - x, ONE, 0 - r);
    RoundUnique(0 - x, ONE, 0 - r);
  }

  lemma MulNegated(x: int, y: int)
    ensures Mul(0 - x, y) == Negated(Mul(x, y)) && Mul(x, 0 - y) == Negated(Mul(x, y))
    ensures Mul(0 - x, 0 - y) == Mul(x, y)
  {
    hide ChopAndRound, BitLen;
    assert (0 - x) * y == 0 - x * y && x * (0 - y) == 0 - x * y && (0 - x) * (0 - y) == x * y;
    RoundNegated(x * y);
  }

  lemma {:induction false} PowLoopNegatedTmp(i: nat, d: int, tmp: int)
    ensures PowLoop(i, d, 0 - tmp) == Negated(PowLoop(i, d, tmp))
    decreases i
  {
    hide Mul;
    MulNegated(d, tmp);
    MulNegated(tmp, d);
    if i > 1 && Mul(d, d).Some? {
      if i % 2 != 0 {
        if Mul(tmp, d).Some? { PowLoopNegatedTmp(i / 2, Mul(d, d).value, Mul(tmp, d).value); }
      } else {
        PowLoopNegatedTmp(i / 2, Mul(d, d).value, tmp);
      }
    }
  }

  lemma PowLoopNegated(i: nat, d: int, tmp: int)
    requires i > 1
    ensures PowLoop(i, 0 - d, tmp) == if i % 2 != 0 then Negated(PowLoop(i, d, tmp)) else PowLoop(i, d, tmp)
  {
    hide Mul;
    MulNegated(d, d);
    MulNegated(tmp, d);
    if i % 2 != 0 && Mul(tmp, d).Some? && Mul(d, d).Some? {
      PowLoopNegatedTmp(i / 2, Mul(d, d).value, Mul(tmp, d).value);
    }
  }

  /** The power of the negated base is the power, negated exactly for odd exponents. */
  lemma PowerNegated(d: int, n: nat)
    ensures PowerInteger(0 - d, n) == if n % 2 != 0 then Negated(PowerInteger(d, n)) else PowerInteger(d, n)
  {
    hide Mul, PowLoop;
    if n == 2 {
      MulNegated(d, d);
    } else if n > 2 {
      PowLoopNegated(n, d, ONE);
    }
  }
}
