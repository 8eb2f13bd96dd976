/** The binary logarithm by repeated squaring, truncating and rounding at every step. */
module Log2 {
  import opened Binary
  import opened Options
  import opened Rounding
  import opened BigDec

  const MAX_ITERATIONS: nat := 300

  /** A mantissa from one up to two, and the exponent that was split off. */
  datatype Split = Split(mantissa: int, exponent: int)

  /** Doubling until the number is at least one. */
  function ScaleUp(x: int): Split
    requires x > 0
    decreases ONE - x
  {
    if x >= ONE then Split(x, 0) else
      var s := ScaleUp(2 * x);
      s.(exponent := s.exponent - 1)
  }

  /** Halving, rounded down, until the number is below two. */
  function ScaleDown(x: int): Split
    requires x > 0
    decreases x
  {
    if x < TWO then Split(x, 0) else
      var s := ScaleDown(x / 2);
      s.(exponent := s.exponent + 1)
  }

  function Normalize(x: int): Split
    requires x > 0
  {
    if x < ONE then ScaleUp(x) else ScaleDown(x)
  }

  /** The square of the mantissa, rounded. */
  function Square(x: int): int {
    ChopAndRound(x * x, ONE)
  }

  /** The mantissa after one squaring. */
  function Next(x: int): int {
    if Square(x) >= TWO then Square(x) / 2 else Square(x)
  }

  /** The binary digits of the logarithm, each worth half of the one before, rounded down. */
  function Digits(i: nat, x: int, b: int): int {
    if i == 0 then 0 else
      (if Square(x) >= TWO then b else 0) + Digits(i - 1, Next(x), b / 2)
  }

  function Log2(x: int): int
    requires x > 0
  {
    var s := Normalize(x);
    s.exponent * ONE + Digits(MAX_ITERATIONS, s.mantissa, ONE / 2)
  }

  /** `LogBase2`, with `None` for the panic on numbers that have no logarithm. */
  method LogBase2(x: int) returns (r: Option<int>)
    ensures r == if x <= 0 then None else Some(Log2(x))
  {
    if x <= 0 {
      return None;
    }
    var xCopy, y := x, 0;
    while xCopy < ONE
      invariant xCopy > 0 && (x >= ONE ==> xCopy == x && y == 0)
      invariant x < ONE ==> xCopy < TWO && ScaleUp(x).mantissa == ScaleUp(xCopy).mantissa
      invariant x < ONE ==> ScaleUp(x).exponent * ONE == ScaleUp(xCopy).exponent * ONE + y
      decreases ONE - xCopy
    {
      xCopy := 2 * xCopy;
      y := y - ONE;
    }
    while xCopy >= TWO
      invariant xCopy >= ONE
      invariant Normalize(x).mantissa == ScaleDown(xCopy).mantissa
      invariant Normalize(x).exponent * ONE == ScaleDown(xCopy).exponent * ONE + y
      decreases xCopy
    {
      xCopy := xCopy / 2;
      y := y + ONE;
    }
    var b := ONE / 2;
    for i := 0 to MAX_ITERATIONS
      invariant Log2(x) == y + Digits(MAX_ITERATIONS - i, xCopy, b)
    {
      hide ChopAndRound;
      xCopy := ChopAndRound(xCopy * xCopy, ONE);
      if xCopy >= TWO {
        xCopy := xCopy / 2;
        y := y + b;
      }
      b := b / 2;
    }
    return Some(y);
  }

  // ---- range ----

  predicate Mantissa(x: int) {
    ONE <= x < TWO
  }

  lemma SquareRange(x: int)
    requires Mantissa(x)
    ensures ONE <= Square(x) < 2 * TWO
    ensures Mantissa(Next(x))
  {
    hide ChopAndRound;
    Product(x - ONE, x - ONE);
    Product(TWO - 1 - x, TWO - 1 + x);
    assert (x - ONE) * (x - ONE) == x * x - 2 * x * ONE + ONE * ONE;
    assert (TWO - 1 - x) * (TWO - 1 + x) == (TWO - 1) * (TWO - 1) - x * x;
    RoundMono(ONE * ONE, x * x, ONE);
    RoundMono(x * x, (4 * ONE - 3) * ONE, ONE);
    RoundExact(ONE, ONE);
    RoundExact(4 * ONE - 3, ONE);
  }

  /** All later digits together are worth at most the digit before them. */
  lemma {:induction false} DigitsRange(i: nat, x: int, b: int)
    requires Mantissa(x) && b >= 0
    ensures 0 <= Digits(i, x, b) <= if b == 0 then 0 else 2 * b - 1
    decreases i
  {
    hide Square, Next;
    if i > 0 {
      SquareRange(x);
      DigitsRange(i - 1, Next(x), b / 2);
    }
  }

  lemma {:induction false} ScaleUpRange(x: int)
    requires 0 < x < TWO
    ensures Mantissa(ScaleUp(x).mantissa) && (x < ONE ==> ScaleUp(x).exponent < 0) && ScaleUp(x).exponent <= 0
    decreases ONE - x
  {
    if x < ONE { ScaleUpRange(2 * x); }
  }

  lemma {:induction false} ScaleDownRange(x: int)
    requires x >= ONE
    ensures Mantissa(ScaleDown(x).mantissa) && ScaleDown(x).exponent >= 0
    decreases x
  {
    if x >= TWO { ScaleDownRange(x / 2); }
  }

  lemma NormalizeRange(x: int)
    requires x > 0
    ensures Mantissa(Normalize(x).mantissa)
  {
    hide ScaleUp, ScaleDown;
    if x < ONE { ScaleUpRange(x); } else { ScaleDownRange(x); }
  }

  /** The whole part of the logarithm is the exponent of the number. */
  lemma LogRange(x: int)
    requires x > 0
    ensures Normalize(x).exponent * ONE <= Log2(x) < (Normalize(x).exponent + 1) * ONE
  {
    hide Normalize, Digits;
    NormalizeRange(x);
    DigitsRange(MAX_ITERATIONS, Normalize(x).mantissa, ONE / 2);
  }

  // ---- order ----

  lemma SquareMono(x: int, x': int)
    requires Mantissa(x) && Mantissa(x') && x <= x'
    ensures Square(x) <= Square(x')
  {
    hide ChopAndRound;
    Product(x' - x, x' + x);
    assert (x' - x) * (x' + x) == x' * x' - x * x;
    RoundMono(x * x, x' * x', ONE);
  }

  lemma {:induction false} DigitsMono(i: nat, x: int, x': int, b: int)
    requires Mantissa(x) && Mantissa(x') && x <= x' && b >= 0
    ensures Digits(i, x, b) <= Digits(i, x', b)
    decreases i
  {
    hide Square;
    if i > 0 {
      SquareMono(x, x');
      SquareRange(x);
      SquareRange(x');
      if Square(x) < TWO <= Square(x') {
        DigitsRange(i - 1, Next(x), b / 2);
        DigitsRange(i - 1, Next(x'), b / 2);
      } else {
        DigitsMono(i - 1, Next(x), Next(x'), b / 2);
      }
    }
  }

  /** Splits are ordered by exponent, then by mantissa. */
  ghost predicate SplitLeq(s: Split, t: Split) {
    s.exponent < t.exponent || (s.exponent == t.exponent && s.mantissa <= t.mantissa)
  }

  lemma {:induction false} ScaleUpMono(x: int, x': int)
    requires 0 < x <= x' < TWO
    ensures SplitLeq(ScaleUp(x), ScaleUp(x'))
    decreases ONE - x
  {
    if x < ONE {
      if x' < ONE {
        ScaleUpMono(2 * x, 2 * x');
      } else {
        ScaleUpRange(x);
      }
    }
  }

  lemma {:induction false} ScaleDownMono(x: int, x': int)
    requires ONE <= x <= x'
    ensures SplitLeq(ScaleDown(x), ScaleDown(x'))
    decreases x'
  {
    if x' >= TWO {
      if x >= TWO {
        ScaleDownMono(x / 2, x' / 2);
      } else {
        ScaleDownRange(x' / 2);
      }
    }
  }

  lemma NormalizeMono(x: int, x': int)
    requires 0 < x <= x'
    ensures SplitLeq(Normalize(x), Normalize(x'))
  {
    hide ScaleUp, ScaleDown;
    if x' < ONE {
      ScaleUpMono(x, x');
    } else if x >= ONE {
      ScaleDownMono(x, x');
    } else {
      ScaleUpRange(x);
      ScaleDownRange(x');
    }
  }

  /** The logarithm is monotone on all positive numbers. */
  lemma LogMono(x: int, x': int)
    requires 0 < x <= x'
    ensures Log2(x) <= Log2(x')
  {
    hide Normalize, Digits;
    var s, t := Normalize(x), Normalize(x');
    NormalizeMono(x, x');
    NormalizeRange(x);
    NormalizeRange(x');
    if s.exponent == t.exponent {
      DigitsMono(MAX_ITERATIONS, s.mantissa, t.mantissa, ONE / 2);
    } else {
      DigitsRange(MAX_ITERATIONS, s.mantissa, ONE / 2);
      DigitsRange(MAX_ITERATIONS, t.mantissa, ONE / 2);
    }
  }

  // ---- exact on powers of two ----

  lemma SquareOne()
    ensures Square(ONE) == ONE && Next(ONE) == ONE
  {
    hide ChopAndRound;
    RoundExact(ONE, ONE);
  }

  lemma {:induction false} DigitsOne(i: nat, b: int)
    ensures Digits(i, ONE, b) == 0
    decreases i
  {
    hide Square, Next;
    SquareOne();
    if i > 0 { DigitsOne(i - 1, b / 2); }
  }

  lemma {:induction false} ScaleDownPower(k: nat)
    ensures ScaleDown(Pow2(k) * ONE) == Split(ONE, k)
  {
    if k > 0 {
      ScaleDownPower(k - 1);
      assert Pow2(k) * ONE == 2 * (Pow2(k - 1) * ONE);
    }
  }

  lemma {:induction false} ScaleUpPower(x: int, k: nat)
    requires x > 0 && x * Pow2(k) == ONE
    ensures ScaleUp(x) == Split(ONE, 0 - k)
    decreases k
  {
    if k > 0 {
      assert x * Pow2(k) == (2 * x) * Pow2(k - 1);
      Product(x, Pow2(k) - 2);
      assert x * (Pow2(k) - 2) == ONE - 2 * x;
      ScaleUpPower(2 * x, k - 1);
    }
  }

  /** The logarithm of a representable power of two is its exponent. */
  lemma LogOfPower(x: int, k: nat)
    requires x > 0
    ensures x == Pow2(k) * ONE ==> Log2(x) == k * ONE
    ensures x * Pow2(k) == ONE ==> Log2(x) == 0 - k * ONE
  {
    hide ScaleUp, ScaleDown, Digits;
    DigitsOne(MAX_ITERATIONS, ONE / 2);
    if x == Pow2(k) * ONE {
      ScaleDownPower(k);
    }
    if x * Pow2(k) == ONE {
      ScaleUpPower(x, k);
      if k == 0 { ScaleDownPower(0); }
      else { Product(x, Pow2(k) - 2); assert x * (Pow2(k) - 2) == ONE - 2 * x; }
    }
  }
}
