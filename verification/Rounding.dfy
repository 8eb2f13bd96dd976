/** Banker's rounding: how fixed-point products and quotients lose their extra digits. */
module Rounding {
  /** `chopPrecisionAndRound`: the truncated quotient, corrected by the remainder. */
  function ChopAndRound(d: int, p: int): int
    requires p > 0 && p % 2 == 0
    decreases d < 0
  {
    if d < 0 then
      -ChopAndRound(-d, p)
    else
      var quo, rem := d / p, d % p;
      if rem == 0 then quo
      else if rem < p / 2 then quo
      else if rem > p / 2 then quo + 1
      else if quo % 2 == 0 then quo
      else quo + 1
  }

  /** `r` is a nearest multiple of `p`, and the even one of two. */
  ghost predicate Nearest(d: int, p: int, r: int) {
    && -p <= 2 * (r * p - d) <= p
    && (2 * (r * p - d) == p || 2 * (r * p - d) == -p ==> r % 2 == 0)
  }

  lemma RoundNearest(d: int, p: int)
    requires p > 0 && p % 2 == 0
    ensures Nearest(d, p, ChopAndRound(d, p))
  {
    if d < 0 {
      RoundNearestPositive(-d, p);
      var r := ChopAndRound(-d, p);
      assert (-r) * p == -(r * p);
    } else {
      RoundNearestPositive(d, p);
    }
  }

  lemma RoundNearestPositive(d: int, p: int)
    requires p > 0 && p % 2 == 0 && d >= 0
    ensures Nearest(d, p, ChopAndRound(d, p))
  {
    var quo, rem := d / p, d % p;
    assert d == quo * p + rem;
    assert (quo + 1) * p == quo * p + p;
  }

  lemma Product(x: int, y: int)
    requires x >= 0 && y >= 0
    ensures x * y >= 0
  {
  }

  lemma Multiples(a: int, b: int, p: int)
    requires a < b && p >= 0
    ensures a * p + p <= b * p
  {
    Product(b - a - 1, p);
    assert (b - a - 1) * p == b * p - a * p - p;
  }

  /** Nearest with ties to even leaves no choice. */
  lemma RoundUnique(d: int, p: int, r: int)
    requires p > 0 && p % 2 == 0
    requires Nearest(d, p, r)
    ensures r == ChopAndRound(d, p)
  {
    hide ChopAndRound;
    RoundNearest(d, p);
    NearestMono(d, d, p, r, ChopAndRound(d, p));
    NearestMono(d, d, p, ChopAndRound(d, p), r);
  }

  lemma NearestMono(a: int, b: int, p: int, x: int, y: int)
    requires p > 0 && a <= b
    requires Nearest(a, p, x) && Nearest(b, p, y)
    ensures x <= y
  {
    assert (y + 1) * p == y * p + p;
    if y < x {
      Multiples(y, x, p);
      if y + 1 < x { Multiples(y + 1, x, p); }
    }
  }

  /** Rounding keeps order. */
  lemma RoundMono(a: int, b: int, p: int)
    requires p > 0 && p % 2 == 0
    requires a <= b
    ensures ChopAndRound(a, p) <= ChopAndRound(b, p)
  {
    hide ChopAndRound;
    RoundNearest(a, p);
    RoundNearest(b, p);
    NearestMono(a, b, p, ChopAndRound(a, p), ChopAndRound(b, p));
  }

  /** Multiples of the precision are not changed. */
  lemma RoundExact(n: int, p: int)
    requires p > 0 && p % 2 == 0
    ensures ChopAndRound(n * p, p) == n
  {
    hide ChopAndRound;
    RoundUnique(n * p, p, n);
  }
}
