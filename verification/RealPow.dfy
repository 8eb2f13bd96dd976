/** Products and powers of real numbers. */
module RealPow {
  ghost function Pow(q: real, n: nat): real {
    if n == 0 then 1.0 else Pow(q, n - 1) * q
  }

  lemma {:induction false} PowAdd(q: real, j: nat, k: nat)
    ensures Pow(q, j + k) == Pow(q, j) * Pow(q, k)
  {
    if k > 0 {
      PowAdd(q, j, k - 1);
      Assoc(Pow(q, j), Pow(q, k - 1), q);
    }
  }

  lemma Assoc(a: real, b: real, c: real)
    ensures (a * b) * c == a * (b * c)
  {
  }

  lemma PowOne(q: real)
    ensures Pow(q, 0) == 1.0 && Pow(q, 1) == q
  {
    assert Pow(q, 1) == Pow(q, 0) * q;
  }

  lemma Stretch(a: real, b: real, w: real)
    requires a <= b && w >= 0.0
    ensures a * w <= b * w
  {
  }

  lemma Scaled(t: real, y: real, e: real)
    requires 0.0 <= y <= 1.0 && -e <= t <= e
    ensures -e <= t * y <= e
  {
    calc <= {
      t * y;
      { Stretch(t, e, y); }
      e * y;
      { Stretch(y, 1.0, e); }
      1.0 * e;
      e;
    }
    calc <= {
      (-t) * y;
      { Stretch(-t, e, y); }
      e * y;
      { Stretch(y, 1.0, e); }
      1.0 * e;
      e;
    }
    assert (-t) * y == -(t * y);
  }

  lemma RoundedProduct(x: real, y: real, r: real, p: real, u: real)
    requires u > 0.0 && u * p == 1.0
    requires -p <= 2.0 * (r * p - x * y) <= p
    ensures -u <= 2.0 * (r * u - (x * u) * (y * u)) <= u
  {
    var gap := 2.0 * (r * p - x * y);
    Stretch(gap, p, u * u);
    Stretch(-p, gap, u * u);
    assert p * (u * u) == u;
    assert (r * p) * (u * u) == r * u;
    assert (x * y) * (u * u) == (x * u) * (y * u);
    assert gap * (u * u) == 2.0 * (r * u - (x * u) * (y * u));
  }

  /** The product, under a name: most proofs only need its laws. */
  ghost function Times(a: real, b: real): real {
    a * b
  }

  lemma TimesAssoc(a: real, b: real, c: real)
    ensures Times(Times(a, b), c) == Times(a, Times(b, c))
  {
  }

  lemma TimesComm(a: real, b: real)
    ensures Times(a, b) == Times(b, a)
  {
  }

  lemma TimesOne(a: real)
    ensures Times(1.0, a) == a && Times(a, 1.0) == a
  {
  }

  lemma TimesMono(a: real, b: real, c: real, d: real)
    requires 0.0 <= a <= b && 0.0 <= c <= d
    ensures 0.0 <= Times(a, c) <= Times(b, d)
  {
    calc <= {
      a * c;
      { Stretch(a, b, c); }
      b * c;
      { Stretch(c, d, b); }
      b * d;
    }
    Stretch(0.0, a, c);
  }

  /** (a b) (x y) = (a x) (b y) */
  lemma TimesSwap(a: real, b: real, x: real, y: real)
    ensures Times(Times(a, b), Times(x, y)) == Times(Times(a, x), Times(b, y))
  {
    hide Times;
    TimesAssoc(a, b, Times(x, y));
    TimesAssoc(b, x, y);
    TimesComm(b, x);
    TimesAssoc(x, b, y);
    TimesAssoc(a, x, Times(b, y));
  }

  lemma PowStep(q: real, n: nat)
    requires n > 0
    ensures Pow(q, n) == Times(Pow(q, n - 1), q)
  {
  }

  lemma PowZero(q: real)
    ensures Pow(q, 0) == 1.0
  {
  }

  lemma PowSum(q: real, j: nat, k: nat)
    ensures Pow(q, j + k) == Times(Pow(q, j), Pow(q, k))
  {
    PowAdd(q, j, k);
  }

  lemma {:induction false} PowNonNeg(q: real, n: nat)
    requires q >= 0.0
    ensures Pow(q, n) >= 0.0
  {
    hide Times, Pow;
    if n == 0 {
      PowZero(q);
    } else {
      PowNonNeg(q, n - 1);
      PowStep(q, n);
      TimesMono(Pow(q, n - 1), Pow(q, n - 1), q, q);
    }
  }

  lemma {:induction false} PowMono(a: real, b: real, n: nat)
    requires 0.0 <= a <= b
    ensures 0.0 <= Pow(a, n) <= Pow(b, n)
  {
    hide Times, Pow;
    if n == 0 {
      PowZero(a);
      PowZero(b);
    } else {
      PowMono(a, b, n - 1);
      PowStep(a, n);
      PowStep(b, n);
      TimesMono(Pow(a, n - 1), Pow(b, n - 1), a, b);
    }
  }

  lemma {:induction false} PowTimes(a: real, b: real, n: nat)
    ensures Pow(Times(a, b), n) == Times(Pow(a, n), Pow(b, n))
  {
    hide Times, Pow;
    if n == 0 {
      PowZero(a);
      PowZero(b);
      PowZero(Times(a, b));
      TimesOne(1.0);
    } else {
      PowTimes(a, b, n - 1);
      PowStep(a, n);
      PowStep(b, n);
      PowStep(Times(a, b), n);
      TimesSwap(Pow(a, n - 1), Pow(b, n - 1), a, b);
    }
  }

  lemma PowSquare(q: real, n: nat)
    ensures Pow(q, 2 * n) == Pow(Times(q, q), n)
  {
    hide Times, Pow;
    PowSum(q, n, n);
    PowTimes(q, q, n);
  }

  lemma {:induction false} PowOfOne(n: nat)
    ensures Pow(1.0, n) == 1.0
  {
    if n > 0 { PowOfOne(n - 1); }
  }
}
