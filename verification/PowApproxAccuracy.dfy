/** How close the terms and sums of the rounded series are to those of the binomial series itself. */
module PowApproxAccuracy {
  import opened Dec
  import opened RealPow
  import opened Rounding
  import opened PowApprox

  // ---- products and quotients of decimals ----

  /** A product is within half a unit of the exact one. */
  lemma MulMeans(x: int, y: int)
    ensures -Ulp() <= 2.0 * (Value(Mul(x, y)) - Times(Value(x), Value(y))) <= Ulp()
  {
    hide ChopAndRound;
    RoundNearest(x * y, ONE);
    RoundedProduct(x as real, y as real, Mul(x, y) as real, ONE as real, Ulp());
  }

  lemma Bounded(lo: int, x: int, hi: int, y: nat)
    requires lo <= x <= hi
    ensures lo * y <= x * y <= hi * y
  {
    Product(x - lo, y);
    Product(hi - x, y);
    assert (x - lo) * y == x * y - lo * y && (hi - x) * y == hi * y - x * y;
  }

  /** A quotient times the divisor is within half of the divisor of the dividend, but for what the truncated division drops. */
  lemma QuoMeans(x: nat, y: nat)
    requires y > 0
    ensures -(ONE * y + 2 * y) <= 2 * ONE * (Quo(x, y) * y - x * ONE) <= ONE * y
  {
    hide ChopAndRound;
    var f, q := x * (ONE * ONE) / y, Quo(x, y);
    var rest := x * (ONE * ONE) - f * y;
    assert 0 <= rest < y;
    RoundNearest(f, ONE);
    TwoRoundings(x, y, f, q, rest, ONE);
  }

  lemma TwoRoundings(x: nat, y: nat, f: int, q: int, rest: int, p: int)
    requires -p <= 2 * (q * p - f) <= p && x * (p * p) == f * y + rest && 0 <= rest < y
    ensures -(p * y + 2 * y) <= 2 * p * (q * y - x * p) <= p * y
  {
    Bounded(-p, 2 * (q * p - f), p, y);
    Expand(q, p, f, y);
    Apart(p, q * y, x * p);
    assert x * (p * p) == p * (x * p);
    assert (-p) * y == -(p * y);
  }

  lemma Expand(q: int, p: int, f: int, y: int)
    ensures (2 * (q * p - f)) * y == 2 * (p * (q * y)) - 2 * (f * y)
  {
    assert (q * p) * y == p * (q * y);
    assert (q * p - f) * y == (q * p) * y - f * y;
  }

  lemma Apart(p: int, a: int, b: int)
    ensures 2 * p * (a - b) == 2 * (p * a) - 2 * (p * b)
  {
  }

  /** A quotient by a whole number. */
  lemma QuoByWhole(x: nat, i: nat)
    requires i > 0
    ensures 0 - i <= Quo(x, i * ONE) * i - x <= i
  {
    hide Quo;
    QuoMeans(x, i * ONE);
    var g := Quo(x, i * ONE) * i - x;
    assert Quo(x, i * ONE) * (i * ONE) - x * ONE == g * ONE;
  }

  // ---- the exact series ----

  /** The i-th term of the binomial series for (1 + x)^a. */
  ghost function Binomial(a: real, x: real, i: nat): real {
    if i == 0 then 1.0 else Binomial(a, x, i - 1) * ((a - (i - 1) as real) * x) / i as real
  }

  ghost function BinomialSum(a: real, x: real, n: nat): real {
    if n == 0 then 1.0 else BinomialSum(a, x, n - 1) + Binomial(a, x, n)
  }

  /** |a - (i - 1)| and |x|, as decimals. */
  ghost function Factor(exp: int, i: nat): real
    requires i > 0
  {
    Value(Dist(exp, (i - 1) * ONE))
  }

  ghost function Away(base: int): real {
    Value(Dist(base, ONE))
  }

  /** The magnitude of the i-th exact term. */
  ghost function Exact(base: int, exp: int, i: nat): real {
    if i == 0 then 1.0 else Times(Exact(base, exp, i - 1), Times(Factor(exp, i), Away(base))) / i as real
  }

  lemma ValueUpTo(x: int, n: nat)
    requires 0 <= x <= n * ONE
    ensures 0.0 <= Value(x) <= n as real
  {
    var u := Ulp();
    Stretch(0.0, x as real, u);
    Stretch(x as real, (n * ONE) as real, u);
    assert (n * ONE) as real == n as real * ONE as real;
    assert (n as real * ONE as real) * u == n as real * (u * ONE as real);
  }

  lemma FactorRange(base: int, exp: int, i: nat)
    requires 0 < base <= 2 * ONE && 0 < exp < ONE && i > 0
    ensures 0.0 <= Factor(exp, i) <= i as real && 0.0 <= Away(base) <= 1.0
  {
    hide Value;
    ValueUpTo(Dist(exp, (i - 1) * ONE), i);
    ValueUpTo(Dist(base, ONE), 1);
  }

  // ---- one step ----

  /** Three roundings: what they do to the product of a term and its factors. */
  lemma Roundings(t: real, c: real, x: real, m: real, y: real, qi: real, i: real, u: real)
    requires u > 0.0 && 0.0 <= x <= 1.0 && i >= 1.0
    requires -u <= 2.0 * (m - Times(t, c)) <= u
    requires -u <= 2.0 * (y - Times(m, x)) <= u
    requires -Times(i, u) <= qi - y <= Times(i, u)
    ensures
      var all := Times(Times(t, c), x);
      -(2.0 * Times(i, u)) <= qi - all <= 2.0 * Times(i, u)
  {
    hide Times;
    ScaledGap(m, Times(t, c), x, u);
    AtLeastOnce(i, u);
  }

  lemma ScaledGap(m: real, p: real, x: real, u: real)
    requires 0.0 <= x <= 1.0 && -u <= 2.0 * (m - p) <= u
    ensures -u <= 2.0 * (Times(m, x) - Times(p, x)) <= u
  {
    Scaled(2.0 * (m - p), x, u);
    assert (2.0 * (m - p)) * x == 2.0 * (Times(m, x) - Times(p, x));
  }

  lemma AtLeastOnce(i: real, u: real)
    requires i >= 1.0 && u > 0.0
    ensures Times(i, u) >= u
  {
    Stretch(1.0, i, u);
  }

  lemma Widened(g: real, c: real, err: real, i: real)
    requires 0.0 <= c <= i && -err <= g <= err
    ensures -(err * i) <= g * c <= err * i
  {
    Stretch(c, i, err);
    Stretch(g, err, c);
    Stretch(-g, err, c);
    assert c * err == err * c && i * err == err * i;
    assert (-g) * c == -(g * c);
  }

  /** An error in a term, passed on by its factors. */
  lemma PassedOn(t: real, e: real, c: real, x: real, err: real, i: real)
    requires 0.0 <= c <= i && 0.0 <= x <= 1.0 && -err <= t - e <= err
    ensures -Times(err, i) <= Times(Times(t, c), x) - Times(Times(e, c), x) <= Times(err, i)
  {
    var g := (t - e) * c;
    Widened(t - e, c, err, i);
    Scaled(g, x, err * i);
    assert g == t * c - e * c;
    assert g * x == (t * c) * x - (e * c) * x;
  }

  lemma Cancelled(a: real, b: real, i: real)
    requires i > 0.0 && Times(a, i) <= Times(b, i)
    ensures a <= b
  {
    hide Times;
    if a > b {
      TimesStrict(a, b, i);
      assert false;
    }
  }

  lemma TimesStrict(a: real, b: real, i: real)
    requires a > b && i > 0.0
    ensures Times(a, i) > Times(b, i)
  {
    var g := a - b;
    assert g * i > 0.0;
    assert g * i == a * i - b * i;
  }

  lemma ExactTimes(base: int, exp: int, i: nat)
    requires i > 0
    ensures Times(Exact(base, exp, i), i as real) == Times(Times(Exact(base, exp, i - 1), Factor(exp, i)), Away(base))
  {
    var p := Times(Exact(base, exp, i - 1), Times(Factor(exp, i), Away(base)));
    TimesAssoc(Exact(base, exp, i - 1), Factor(exp, i), Away(base));
    assert (p / i as real) * i as real == p;
  }

  /** Twice the number of the term, in units. */
  ghost function Allowed(i: nat): real {
    2.0 * Times(i as real, Ulp())
  }

  lemma AllowedNext(i: nat)
    requires i > 0
    ensures Times(Allowed(i - 1), i as real) + Allowed(i) == Times(Allowed(i), i as real)
  {
    var r, u := i as real, Ulp();
    assert (i - 1) as real == r - 1.0;
    assert (2.0 * ((r - 1.0) * u)) * r == (2.0 * (r * u)) * r - (2.0 * u) * r;
  }

  /** The rounded steps of one term. */
  lemma TermStep(base: int, exp: int, i: nat)
    requires 0 < base <= 2 * ONE && 0 < exp < ONE && i > 0
    ensures
      var all := Times(Times(Value(Term(base, exp, i - 1)), Factor(exp, i)), Away(base));
      -Allowed(i) <= Times(Value(Term(base, exp, i)), i as real) - all <= Allowed(i)
  {
    hide Mul, Quo, Term, Value, Times, Dist;
    SumNext(base, exp, i);
    var t, c, x := Term(base, exp, i - 1), Dist(exp, (i - 1) * ONE), Dist(base, ONE);
    var m := Mul(t, c);
    var y := Mul(m, x);
    var q := Term(base, exp, i);
    MulMeans(t, c);
    MulMeans(m, x);
    FactorRange(base, exp, i);
    QuoByWhole(y, i);
    WholeGap(q, i, y);
    Roundings(Value(t), Value(c), Value(x), Value(m), Value(y), Times(Value(q), i as real), i as real, Ulp());
  }

  lemma WholeGap(q: int, i: nat, y: int)
    requires 0 - i <= q * i - y <= i
    ensures -Times(i as real, Ulp()) <= Times(Value(q), i as real) - Value(y) <= Times(i as real, Ulp())
  {
    var u := Ulp();
    var g := q * i - y;
    Stretch(g as real, i as real, u);
    Stretch(-(i as real), g as real, u);
    assert g as real == q as real * i as real - y as real;
    assert (q as real * i as real) * u == (q as real * u) * i as real;
    assert g as real * u == (q as real * u) * i as real - y as real * u;
  }

  /** Every term is within two units per term of the exact one: no factor exceeds one, so errors do not grow. */
  lemma {:induction false} TermError(base: int, exp: int, i: nat)
    requires 0 < base <= 2 * ONE && 0 < exp < ONE
    ensures -Allowed(i) <= Value(Term(base, exp, i)) - Exact(base, exp, i) <= Allowed(i)
  {
    hide Term, Value, Times, Exact, Allowed, Factor, Away;
    if i == 0 {
      TermZero(base, exp);
    } else {
      TermError(base, exp, i - 1);
      var r, v, e := i as real, Value(Term(base, exp, i)), Exact(base, exp, i);
      TermStep(base, exp, i);
      FactorRange(base, exp, i);
      PassedOn(Value(Term(base, exp, i - 1)), Exact(base, exp, i - 1), Factor(exp, i), Away(base), Allowed(i - 1), r);
      ExactTimes(base, exp, i);
      AllowedNext(i);
      FromProducts(v, e, Allowed(i), r);
    }
  }

  lemma TermZero(base: int, exp: int)
    requires 0 < base <= 2 * ONE && 0 < exp < ONE
    ensures Value(Term(base, exp, 0)) == 1.0 && Exact(base, exp, 0) == 1.0 && Allowed(0) == 0.0
  {
  }

  lemma FromProducts(v: real, e: real, d: real, i: real)
    requires i > 0.0 && -Times(d, i) <= Times(v, i) - Times(e, i) <= Times(d, i)
    ensures -d <= v - e <= d
  {
    assert (v - e) * i == v * i - e * i && (-d) * i == -(d * i);
    Cancelled(v - e, d, i);
    Cancelled(-d, v - e, i);
  }

  // ---- signs and sums ----

  lemma ValueDiff(a: int, b: int)
    ensures Value(a) - Value(b) == Value(a - b) && Value(0 - a) == 0.0 - Value(a)
  {
  }

  lemma ValueWhole(n: nat)
    ensures Value(n * ONE) == n as real
  {
    var u := Ulp();
    assert (n * ONE) as real == n as real * ONE as real;
    assert (n as real * ONE as real) * u == n as real * (u * ONE as real);
  }

  /** The distances, with their signs, are the factors of the binomial series. */
  lemma SignedFactors(base: int, exp: int, i: nat)
    requires 0 < base <= 2 * ONE && 0 < exp < ONE && i > 0
    ensures Value(exp) - (i - 1) as real == if i == 1 then Factor(exp, i) else 0.0 - Factor(exp, i)
    ensures Value(base) - 1.0 == if base >= ONE then Away(base) else 0.0 - Away(base)
  {
    hide Value;
    ValueWhole(i - 1);
    ValueWhole(1);
    ValueDiff(exp, (i - 1) * ONE);
    ValueDiff((i - 1) * ONE, exp);
    ValueDiff(base, ONE);
    ValueDiff(ONE, base);
    ValueDiff(exp - (i - 1) * ONE, 0);
    ValueDiff(base - ONE, 0);
    BelowWhole(exp, i - 1);
  }

  ghost function Signed(negative: bool, v: real): real {
    if negative then 0.0 - v else v
  }

  lemma SignedProduct(n1: bool, a: real, n2: bool, b: real)
    ensures Times(Signed(n1, a), Signed(n2, b)) == Signed(n1 != n2, Times(a, b))
  {
    assert (0.0 - a) * b == 0.0 - a * b && a * (0.0 - b) == 0.0 - a * b && (0.0 - a) * (0.0 - b) == a * b;
  }

  lemma SignedQuotient(n: bool, a: real, i: real)
    requires i > 0.0
    ensures Signed(n, a) / i == Signed(n, a / i)
  {
    assert (0.0 - a) / i == 0.0 - a / i;
  }

  lemma BinomialNext(a: real, x: real, i: nat)
    requires i > 0
    ensures Binomial(a, x, i) == Times(Binomial(a, x, i - 1), Times(a - (i - 1) as real, x)) / i as real
  {
  }

  lemma ExactNext(base: int, exp: int, i: nat)
    requires i > 0
    ensures Exact(base, exp, i) == Times(Exact(base, exp, i - 1), Times(Factor(exp, i), Away(base))) / i as real
  {
  }

  /** The exact term with the sign that the loop gives it is the term of the binomial series. */
  lemma {:induction false} SignedExact(base: int, exp: int, i: nat)
    requires 0 < base <= 2 * ONE && 0 < exp < ONE
    ensures Binomial(Value(exp), Value(base) - 1.0, i) == Signed(i > 0 && Subtracted(base, i), Exact(base, exp, i))
  {
    hide Value, Times, Factor, Away, Binomial, Exact, Signed, Subtracted;
    if i == 0 {
      SignedZero(base, exp);
    } else {
      SignedExact(base, exp, i - 1);
      SignedFactors(base, exp, i);
      BinomialNext(Value(exp), Value(base) - 1.0, i);
      ExactNext(base, exp, i);
      var c, x := Factor(exp, i), Away(base);
      var before := i - 1 > 0 && Subtracted(base, i - 1);
      SignedIs(i > 1, c, Value(exp) - (i - 1) as real);
      SignedIs(base < ONE, x, Value(base) - 1.0);
      SignedNext(before, Exact(base, exp, i - 1), i > 1, c, base < ONE, x, i as real);
      SignFlips(base, i);
    }
  }

  lemma SignedZero(base: int, exp: int)
    ensures Binomial(Value(exp), Value(base) - 1.0, 0) == Signed(false, Exact(base, exp, 0))
  {
  }

  lemma SignedNext(n0: bool, e: real, n1: bool, c: real, n2: bool, x: real, i: real)
    requires i > 0.0
    ensures Times(Signed(n0, e), Times(Signed(n1, c), Signed(n2, x))) / i == Signed(n0 != (n1 != n2), Times(e, Times(c, x)) / i)
  {
    hide Times, Signed;
    SignedProduct(n1, c, n2, x);
    SignedProduct(n0, e, n1 != n2, Times(c, x));
    SignedQuotient(n0 != (n1 != n2), Times(e, Times(c, x)), i);
  }

  lemma SignFlips(base: int, i: nat)
    requires i > 0
    ensures Subtracted(base, i) == ((i - 1 > 0 && Subtracted(base, i - 1)) != ((i > 1) != (base < ONE)))
  {
  }

  lemma SignedIs(n: bool, a: real, v: real)
    requires v == if n then 0.0 - a else a
    ensures v == Signed(n, a)
  {
  }

  /** One unit for every step of every term so far: n (n + 1). */
  ghost function AllAllowed(n: nat): real {
    Times((n * (n + 1)) as real, Ulp())
  }

  lemma AllAllowedNext(n: nat)
    requires n > 0
    ensures AllAllowed(n) == AllAllowed(n - 1) + Allowed(n)
  {
    var u := Ulp();
    assert n * (n + 1) == (n - 1) * n + 2 * n;
    assert (n * (n + 1)) as real == ((n - 1) * n) as real + 2.0 * n as real;
  }

  /** Every partial sum is within n (n + 1) units of the partial sum of the binomial series. */
  lemma {:induction false} SumError(base: int, exp: int, n: nat)
    requires 0 < base <= 2 * ONE && 0 < exp < ONE
    ensures
      var exact := BinomialSum(Value(exp), Value(base) - 1.0, n);
      -AllAllowed(n) <= Value(PartialSum(base, exp, n)) - exact <= AllAllowed(n)
  {
    hide Value, Binomial, Exact, Allowed, AllAllowed, Term, Subtracted;
    if n == 0 {
      SumZero(base, exp);
    } else {
      SumError(base, exp, n - 1);
      TermError(base, exp, n);
      SignedExact(base, exp, n);
      AllAllowedNext(n);
      ValueDiff(PartialSum(base, exp, n), PartialSum(base, exp, n - 1));
      ValueDiff(Term(base, exp, n), 0);
    }
  }

  lemma SumZero(base: int, exp: int)
    requires 0 < base <= 2 * ONE && 0 < exp < ONE
    ensures Value(PartialSum(base, exp, 0)) == 1.0 && AllAllowed(0) == 0.0
  {
  }
}
