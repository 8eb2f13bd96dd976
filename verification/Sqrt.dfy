/** Square roots of decimals, rounded up. */
module Sqrt {
  import opened Options

  /** The integer square root, rounded down: two binary digits of the number give one of the root. */
  function IntSqrt(n: nat): (r: nat)
    ensures r * r <= n < (r + 1) * (r + 1)
  {
    if n == 0 then 0 else
      var s := IntSqrt(n / 4);
      RootStep(n, s);
      if (2 * s + 1) * (2 * s + 1) <= n then 2 * s + 1 else 2 * s
  }

  lemma RootStep(n: nat, s: nat)
    requires s * s <= n / 4 < (s + 1) * (s + 1)
    ensures (2 * s) * (2 * s) <= n < (2 * s + 2) * (2 * s + 2)
  {
    assert (2 * s) * (2 * s) == 4 * (s * s);
    assert (2 * s + 2) * (2 * s + 2) == 4 * ((s + 1) * (s + 1));
  }

  /** The least number whose square is at least `v`: a decimal root that is not too small. */
  ghost predicate IsRoot(v: int, r: nat) {
    r * r >= v && forall q: nat | q < r :: q * q < v
  }

  lemma SquareMono(q: nat, r: nat)
    requires q <= r
    ensures q * q <= r * r
    ensures q < r ==> q * q < r * r
  {
    assert r * r - q * q == (r - q) * (r + q);
  }

  /** Rounding the integer root up if it falls short. */
  lemma RootUp(v: nat, r: nat)
    requires r * r <= v < (r + 1) * (r + 1)
    ensures IsRoot(v, if r * r < v then r + 1 else r)
  {
    var root := if r * r < v then r + 1 else r;
    forall q: nat | q < root ensures q * q < v {
      SquareMono(q, r);
    }
  }

  /** `MonotonicSqrtMut` and `MonotonicSqrtBigDecMut`, which differ in the scale only. */
  method MonotonicSqrt(d: int, scale: nat) returns (r: Option<nat>)
    ensures d < 0 <==> r.None?
    ensures d >= 0 ==> IsRoot(d * scale, r.value)
  {
    hide IntSqrt, IsRoot;
    if d < 0 {
      return None;
    }
    var shifted := d * scale;
    Shift(d, scale);
    var root := IntSqrt(shifted);
    RootUp(shifted, root);
    if root * root < shifted {
      root := root + 1;
    }
    return Some(root);
  }

  lemma Shift(d: nat, scale: nat)
    ensures d * scale >= 0
  {
  }

  /** Larger numbers have larger roots. */
  lemma RootMono(v: int, r: nat, v': int, r': nat)
    requires v <= v' && IsRoot(v, r) && IsRoot(v', r')
    ensures r <= r'
  {
    if r' < r {
      assert false;
    }
  }

  /** The root of a representable square is exact. */
  lemma RootExact(q: nat, r: nat)
    requires IsRoot(q * q, r)
    ensures r == q
  {
    if r < q {
      SquareMono(r, q);
      assert false;
    }
  }
}
