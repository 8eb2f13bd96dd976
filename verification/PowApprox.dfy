/** Fractional powers by the binomial series, on decimals with 18 places. */
module PowApprox {
  import opened Dec
  import opened Options
  import opened Rounding

  const POW_ITERATION_LIMIT: nat := 150_000

  function Mul(x: int, y: int): int {
    ChopAndRound(x * y, ONE)
  }

  /** A quotient: twice the precision, truncated division, and one rounding. */
  function Quo(x: int, y: int): int
    requires x >= 0 && y > 0
  {
    ChopAndRound(x * (ONE * ONE) / y, ONE)
  }

  /** `AbsDifferenceWithSign`: |a - b| and whether the difference is negative. */
  method AbsDifferenceWithSign(a: int, b: int) returns (d: int, neg: bool)
    ensures a - b == if neg then -d else d
    ensures d == Dist(a, b) && (neg <==> a < b)
  {
    if a >= b {
      return a - b, false;
    } else {
      return -a + b, true;
    }
  }

  // ---- the series ----

  function Dist(a: int, b: int): nat {
    if a >= b then a - b else b - a
  }

  /** The magnitude of the i-th term: |exp - (i-1)| |base - 1| / i times the one before, rounded three times. */
  function Term(base: int, exp: int, i: nat): nat
    requires 0 < base <= 2 * ONE && 0 < exp < ONE
  {
    if i == 0 then ONE else
      var t := Term(base, exp, i - 1);
      var y := Mul(Mul(t, Dist(exp, (i - 1) * ONE)), Dist(base, ONE));
      NonNegTerm(t, Dist(exp, (i - 1) * ONE), Dist(base, ONE), i);
      Quo(y, i * ONE)
  }

  lemma NonNegMul(a: nat, b: nat)
    ensures Mul(a, b) >= 0
  {
    hide ChopAndRound;
    Product(a, b);
    RoundMono(0, a * b, ONE);
    RoundExact(0, ONE);
  }

  lemma NonNegQuo(a: nat, b: nat)
    requires b > 0
    ensures Quo(a, b) >= 0
  {
    hide ChopAndRound;
    RoundMono(0, a * (ONE * ONE) / b, ONE);
    RoundExact(0, ONE);
  }

  lemma NonNegTerm(t: nat, c: nat, x: nat, i: nat)
    requires i > 0
    ensures Mul(Mul(t, c), x) >= 0
    ensures Quo(Mul(Mul(t, c), x), i * ONE) >= 0
  {
    hide Mul, Quo;
    NonNegMul(t, c);
    NonNegMul(Mul(t, c), x);
    NonNegQuo(Mul(Mul(t, c), x), i * ONE);
  }

  /** Above one the signs alternate; below one every term is taken away. */
  predicate Subtracted(base: int, i: nat) {
    base < ONE || i % 2 == 0
  }

  function PartialSum(base: int, exp: int, n: nat): int
    requires 0 < base <= 2 * ONE && 0 < exp < ONE
  {
    if n == 0 then ONE
    else if Subtracted(base, n) then PartialSum(base, exp, n - 1) - Term(base, exp, n)
    else PartialSum(base, exp, n - 1) + Term(base, exp, n)
  }

  lemma SumNext(base: int, exp: int, i: nat)
    requires 0 < base <= 2 * ONE && 0 < exp < ONE && i > 0
    ensures
      var y := Mul(Mul(Term(base, exp, i - 1), Dist(exp, (i - 1) * ONE)), Dist(base, ONE));
      y >= 0 && Term(base, exp, i) == Quo(y, i * ONE)
    ensures PartialSum(base, exp, i) ==
            PartialSum(base, exp, i - 1) + if Subtracted(base, i) then 0 - Term(base, exp, i) else Term(base, exp, i)
  {
    hide Mul, Quo;
    NonNegTerm(Term(base, exp, i - 1), Dist(exp, (i - 1) * ONE), Dist(base, ONE), i);
  }

  lemma SumStart(base: int, exp: int)
    requires 0 < base <= 2 * ONE && 0 < exp < ONE
    ensures Term(base, exp, 0) == ONE && PartialSum(base, exp, 0) == ONE
  {
  }

  // ---- the terms fall ----

  lemma MulBelow(t: nat, c: nat, w: nat)
    requires c <= w * ONE
    ensures Mul(t, c) <= t * w
  {
    hide ChopAndRound;
    Product(t, w * ONE - c);
    assert t * (w * ONE - c) == t * w * ONE - t * c;
    RoundMono(t * c, t * w * ONE, ONE);
    RoundExact(t * w, ONE);
  }

  lemma QuoBelow(y: nat, t: nat, i: nat)
    requires i > 0 && y <= t * i
    ensures Quo(y, i * ONE) <= t
  {
    hide ChopAndRound;
    QuoExact(y, t, i);
    RoundMono(y * (ONE * ONE) / (i * ONE), t * ONE, ONE);
    RoundExact(t, ONE);
  }

  lemma QuoExact(y: nat, t: nat, i: nat)
    requires i > 0 && y <= t * i
    ensures y * (ONE * ONE) / (i * ONE) <= t * ONE
  {
    var q := y * (ONE * ONE) / (i * ONE);
    assert q * (i * ONE) <= y * (ONE * ONE);
    assert y * (ONE * ONE) <= (t * i) * (ONE * ONE);
    assert (t * i) * (ONE * ONE) == (t * ONE) * (i * ONE);
    if q > t * ONE {
      Multiples(t * ONE, q, i * ONE);
      assert false;
    }
  }

  /** No term is larger than the one before it. */
  lemma TermsFall(base: int, exp: int, i: nat)
    requires 0 < base <= 2 * ONE && 0 < exp < ONE && i > 0
    ensures Term(base, exp, i) <= Term(base, exp, i - 1)
  {
    hide Mul, Quo;
    var t, c, x := Term(base, exp, i - 1), Dist(exp, (i - 1) * ONE), Dist(base, ONE);
    NonNegTerm(t, c, x, i);
    NonNegMul(t, c);
    MulBelow(t, c, i);
    MulBelow(Mul(t, c), x, 1);
    QuoBelow(Mul(Mul(t, c), x), t, i);
  }

  /** The first term is the exponent times the distance from one. */
  lemma FirstTerm(base: int, exp: int)
    requires 0 < base <= 2 * ONE && 0 < exp < ONE
    ensures Term(base, exp, 1) == Mul(exp, Dist(base, ONE))
  {
    hide ChopAndRound;
    assert Term(base, exp, 0) == ONE;
    RoundExact(exp, ONE);
    assert Mul(ONE, exp) == exp;
    var y := Mul(exp, Dist(base, ONE));
    NonNegMul(exp, Dist(base, ONE));
    assert y * (ONE * ONE) / (1 * ONE) == y * ONE;
    RoundExact(y, ONE);
  }

  // ---- the sums ----

  /** Above one: from any point on, the sums stay between that sum and the next one. */
  lemma {:induction false} SumsAlternate(base: int, exp: int, n: nat, m: nat)
    requires ONE <= base <= 2 * ONE && 0 < exp < ONE && n <= m
    ensures
      var (s, t) := (PartialSum(base, exp, n), Term(base, exp, n + 1));
      if n % 2 == 0 then s <= PartialSum(base, exp, m) <= s + t else s - t <= PartialSum(base, exp, m) <= s
    decreases m - n
  {
    hide Term;
    if n < m {
      SumsAlternate(base, exp, n + 1, m);
      TermsFall(base, exp, n + 2);
    }
  }

  /** Below one: the sums only fall. */
  lemma {:induction false} SumsFall(base: int, exp: int, n: nat)
    requires 0 < base < ONE && 0 < exp < ONE
    ensures PartialSum(base, exp, n) <= ONE
  {
    hide Term;
    if n > 0 { SumsFall(base, exp, n - 1); }
  }

  /** A sign that flips with each negative factor comes out as `Subtracted` says. */
  lemma SignStep(base: int, i: nat, negative: bool, xneg: bool, cneg: bool)
    requires i > 0 && (xneg <==> base < ONE) && (cneg <==> i > 1)
    requires negative <==> i > 1 && Subtracted(base, i - 1)
    ensures Subtracted(base, i) <==> (negative != xneg) != cneg
  {
  }

  /** None of the terms before the n-th ends the loop. */
  ghost predicate GoesOn(base: int, exp: int, precision: int, n: nat)
    requires 0 < base <= 2 * ONE && 0 < exp < ONE
  {
    forall j | 0 <= j < n :: Term(base, exp, j) >= precision && (j > 0 ==> Term(base, exp, j) != 0)
  }

  lemma GoesOnNext(base: int, exp: int, precision: int, n: nat)
    requires 0 < base <= 2 * ONE && 0 < exp < ONE
    requires GoesOn(base, exp, precision, n)
    requires Term(base, exp, n) >= precision && (n > 0 ==> Term(base, exp, n) != 0)
    ensures GoesOn(base, exp, precision, n + 1)
  {
  }

  /** The loop stops after `n` terms: none of the earlier ones was small enough, the last one is. */
  ghost predicate StopsAt(base: int, exp: int, precision: int, n: nat)
    requires 0 < base <= 2 * ONE && 0 < exp < ONE
  {
    && (Term(base, exp, n) < precision || (n > 0 && Term(base, exp, n) == 0))
    && GoesOn(base, exp, precision, n)
  }

  /** An exponent below one is below every whole number but zero. */
  lemma BelowWhole(exp: int, n: nat)
    requires 0 < exp < ONE
    ensures exp < n * ONE <==> n > 0
  {
  }

  lemma Stops(base: int, exp: int, precision: int, n: nat)
    requires 0 < base <= 2 * ONE && 0 < exp < ONE
    requires GoesOn(base, exp, precision, n)
    requires Term(base, exp, n) < precision || (n > 0 && Term(base, exp, n) == 0)
    ensures StopsAt(base, exp, precision, n)
  {
    hide Term, GoesOn;
  }

  /** One round of the loop: the next term, and the sum and the sign with it. */
  method NextTerm(base: int, exp: int, i: nat, x: int, xneg: bool, bigK: int, before: int, sum: int, negative: bool)
      returns (term: int, sum': int, negative': bool)
    requires 0 < base <= 2 * ONE && 0 < exp < ONE && i > 0 && bigK == (i - 1) * ONE
    requires x == Dist(base, ONE) && (xneg <==> base < ONE)
    requires before == Term(base, exp, i - 1) && sum == PartialSum(base, exp, i - 1)
    requires negative <==> i > 1 && Subtracted(base, i - 1)
    ensures term == Term(base, exp, i) && sum' == PartialSum(base, exp, i)
    ensures term != 0 ==> (negative' <==> Subtracted(base, i))
  {
    hide Mul, Quo, Term, PartialSum, Subtracted, Dist, ChopAndRound;
    SumNext(base, exp, i);
    var c, cneg := AbsDifferenceWithSign(exp, bigK);
    BelowWhole(exp, i - 1);
    term := Quo(Mul(Mul(before, c), x), i * ONE);
    sum', negative' := sum, negative;
    if term == 0 {
      return;
    }
    SignStep(base, i, negative, xneg, cneg);
    negative' := if xneg then !negative' else negative';
    negative' := if cneg then !negative' else negative';
    if negative' {
      sum' := sum' - term;
    } else {
      sum' := sum' + term;
    }
  }

  /**
   `PowApprox`, with `None` for its panics: a base that is not positive, or a term at the iteration limit that is not zero after
   terms that all reached the precision. The result is the partial sum at which the terms fall below the precision.
   */
  method PowApprox(base: int, exp: int, precision: int) returns (r: Option<int>, ghost n: nat)
    requires base <= 2 * ONE && 0 <= exp < ONE && exp != ONE / 2
    ensures base <= 0 ==> r == None
    ensures base > 0 && exp == 0 ==> r == Some(ONE)
    ensures base > 0 && exp > 0 ==>
              match r
              case Some(v) => v == PartialSum(base, exp, n) && StopsAt(base, exp, precision, n)
                && n <= POW_ITERATION_LIMIT && (n == POW_ITERATION_LIMIT ==> Term(base, exp, n) == 0)
              case None => n == POW_ITERATION_LIMIT && GoesOn(base, exp, precision, n) && Term(base, exp, n) != 0
  {
    n := 0;
    if base <= 0 {
      return None, 0;
    }
    if exp == 0 {
      return Some(ONE), 0;
    }
    hide Mul, Quo, Term, PartialSum, Subtracted, GoesOn, Dist, StopsAt, ChopAndRound;
    SumStart(base, exp);
    var x, xneg := AbsDifferenceWithSign(base, ONE);
    var term, sum, negative, bigK, i := ONE, ONE, false, 0, 1;
    while term >= precision
      invariant 1 <= i <= POW_ITERATION_LIMIT && n == i - 1 && bigK == n * ONE
      invariant term == Term(base, exp, n) && sum == PartialSum(base, exp, n)
      invariant negative <==> n > 0 && Subtracted(base, n)
      invariant GoesOn(base, exp, precision, n) && (n > 0 ==> term != 0)
      decreases POW_ITERATION_LIMIT - i
    {
      GoesOnNext(base, exp, precision, n);
      term, sum, negative := NextTerm(base, exp, i, x, xneg, bigK, term, sum, negative);
      bigK := i * ONE;
      n := n + 1;
      if term == 0 {
        break;
      }
      if i == POW_ITERATION_LIMIT {
        return None, n;
      }
      i := i + 1;
    }
    Stops(base, exp, precision, n);
    return Some(sum), n;
  }

  /** What a result means: its range, and how far any longer sum could still move. */
  lemma PowApproxMeaning(base: int, exp: int, precision: int, n: nat, m: nat)
    requires 0 < base <= 2 * ONE && 0 < exp < ONE
    requires StopsAt(base, exp, precision, n) && n <= m
    ensures base >= ONE ==> ONE <= PartialSum(base, exp, n) <= ONE + Mul(exp, base - ONE)
    ensures base <= ONE ==> PartialSum(base, exp, n) <= ONE
    ensures base >= ONE ==> 0 - Term(base, exp, n) <= PartialSum(base, exp, m) - PartialSum(base, exp, n) <= Term(base, exp, n)
  {
    hide Term, Mul;
    FirstTerm(base, exp);
    if base >= ONE {
      SumsAlternate(base, exp, 0, n);
      SumsAlternate(base, exp, n, m);
      TermsFall(base, exp, n + 1);
      if base == ONE {
        NoDistance(exp);
      }
    } else {
      SumsFall(base, exp, n);
    }
  }

  lemma NoDistance(exp: int)
    ensures Mul(exp, 0) == 0
  {
    hide ChopAndRound;
    assert exp * 0 == 0;
    RoundExact(0, ONE);
  }
}
