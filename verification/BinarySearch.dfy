/** Comparison within a tolerance, and bisection for an input whose output is within it. */
module BinarySearch {
  import opened Binary
  import opened Dec
  import opened Options
  import opened Rounding

  datatype RoundingDir = RoundUnconstrained | RoundUp | RoundDown | RoundBankers

  /** Tolerances are decimals with 18 places; an absent one is not checked. */
  datatype ErrTolerance = ErrTolerance(additive: Option<int>, multiplicative: Option<int>, dir: RoundingDir)

  function Min(x: nat, y: nat): nat {
    if x <= y then x else y
  }

  /** The difference of two whole numbers in proportion to the smaller, as a rounded decimal. */
  function Relative(diff: nat, least: nat): int
    requires least > 0
  {
    ChopAndRound((diff * ONE) * (ONE * ONE) / (least * ONE), ONE)
  }

  /** 1 if more was expected, -1 otherwise. */
  function Sign(expected: int, actual: int): int {
    if expected > actual then 1 else -1
  }

  function CompareMultiplicative(e: ErrTolerance, expected: int, actual: int): int {
    if e.multiplicative.None? || e.multiplicative.value == 0 then 0
    else
      var least := Min(Abs(expected), Abs(actual));
      if least == 0 then Sign(expected, actual)
      else if Relative(Abs(expected - actual), least) > e.multiplicative.value then Sign(expected, actual)
      else 0
  }

  /** `ErrTolerance.Compare` */
  function Compare(e: ErrTolerance, expected: int, actual: int): int {
    if e.dir == RoundDown && expected < actual then -1
    else if e.dir == RoundUp && expected > actual then 1
    else if e.additive == Some(0) && expected == actual then 0
    else if e.additive.Some? && Abs(expected - actual) * ONE > e.additive.value then Sign(expected, actual)
    else CompareMultiplicative(e, expected, actual)
  }

  // ---- what the comparison means ----

  /**
   A difference is at most `v` in proportion to `least`, up to rounding: the quotient, truncated to 36 places and rounded to
   18 half to even, does not exceed `v` exactly if it is below `v` and a half of the last place, or at it with an even `v`.
   */
  predicate InProportion(diff: nat, least: nat, v: int) {
    diff * (ONE * ONE) < (v * ONE + ONE / 2 + (if v % 2 == 0 then 1 else 0)) * least
  }

  /** The numbers are within the tolerances; equal ones always are if no difference at all is allowed. */
  predicate Tolerates(e: ErrTolerance, expected: int, actual: int) {
    || (e.additive == Some(0) && expected == actual)
    || (&& (e.dir == RoundDown ==> expected >= actual)
        && (e.dir == RoundUp ==> expected <= actual)
        && (e.additive.Some? ==> Abs(expected - actual) * ONE <= e.additive.value)
        && (e.multiplicative.Some? && e.multiplicative.value != 0 ==>
              && expected != 0 && actual != 0
              && InProportion(Abs(expected - actual), Min(Abs(expected), Abs(actual)), e.multiplicative.value)))
  }

  /** A number is rounded to at most `v` exactly if it is below `v` and a half, or at it with an even `v`. */
  lemma RoundsToAtMost(f: int, v: int)
    ensures ChopAndRound(f, ONE) <= v <==> f < v * ONE + ONE / 2 + (if v % 2 == 0 then 1 else 0)
  {
    hide ChopAndRound;
    RoundNearest(f, ONE);
    var r := ChopAndRound(f, ONE);
    if r <= v {
      Ordered(r, v);
    } else {
      Ordered(v + 1, r);
    }
  }

  lemma Ordered(a: int, b: int)
    requires a <= b
    ensures a * ONE <= b * ONE
    ensures a < b ==> a * ONE + ONE <= b * ONE
  {
  }

  /** A truncated quotient is below a bound exactly if the dividend is below the bound times the divisor. */
  lemma QuotientBelow(n: nat, d: nat, b: int)
    requires d > 0
    ensures n / d < b <==> n < b * d
  {
    var q := n / d;
    assert q * d <= n < q * d + d;
    if q < b {
      Multiples(q, b, d);
    } else if b < q {
      Multiples(b, q, d);
    }
  }

  lemma Scale(diff: nat, least: nat)
    requires least > 0
    ensures (diff * ONE) * (ONE * ONE) / (least * ONE) == diff * (ONE * ONE) / least
  {
    var n := diff * (ONE * ONE);
    var q, r := n / least, n % least;
    assert n == q * least + r;
    assert (diff * ONE) * (ONE * ONE) == n * ONE;
    Shrunk(n, least, q, r);
  }

  lemma RelativeMeans(diff: nat, least: nat, v: int)
    requires least > 0
    ensures Relative(diff, least) <= v <==> InProportion(diff, least, v)
  {
    hide ChopAndRound;
    Scale(diff, least);
    var f := diff * (ONE * ONE) / least;
    RoundsToAtMost(f, v);
    QuotientBelow(diff * (ONE * ONE), least, v * ONE + ONE / 2 + (if v % 2 == 0 then 1 else 0));
  }

  /** The comparison is zero exactly within the tolerances, and otherwise the sign of the difference. */
  lemma CompareMeans(e: ErrTolerance, expected: int, actual: int)
    ensures Compare(e, expected, actual) ==
            if Tolerates(e, expected, actual) then 0 else if expected > actual then 1 else -1
  {
    hide Relative, InProportion;
    var least := Min(Abs(expected), Abs(actual));
    if e.multiplicative.Some? && least > 0 {
      RelativeMeans(Abs(expected - actual), least, e.multiplicative.value);
    }
  }

  lemma QuotientMono(a: nat, b: nat, c: nat, d: nat)
    requires a <= b && 0 < d <= c
    ensures a / c <= b / d
  {
    var x, y := a / c, b / d;
    Product(x, c - d);
    assert x * (c - d) == x * c - x * d;
    if x > y {
      Multiples(y, x, d);
      assert false;
    }
  }

  lemma RelativeMono(diff: nat, least: nat, diff': nat, least': nat)
    requires diff <= diff' && 0 < least' <= least
    ensures Relative(diff, least) <= Relative(diff', least')
  {
    hide ChopAndRound;
    QuotientMono((diff * ONE) * (ONE * ONE), (diff' * ONE) * (ONE * ONE), least * ONE, least' * ONE);
    RoundMono((diff * ONE) * (ONE * ONE) / (least * ONE), (diff' * ONE) * (ONE * ONE) / (least' * ONE), ONE);
  }

  // ---- when the comparison is monotone ----

  /** The multiplicative tolerance is checked at all. */
  predicate Scaled(e: ErrTolerance) {
    e.multiplicative.Some? && e.multiplicative.value != 0
  }

  /** The rounding direction lets nothing pass on the side of the target where zero is. */
  predicate Directed(e: ErrTolerance, target: int) {
    e.dir == if target > 0 then RoundUp else RoundDown
  }

  /** A number `s` away from zero, on the other side than a target `t` away from it, is within both tolerances. */
  predicate Across(e: ErrTolerance, t: nat, s: nat)
    requires t > 0 && s > 0 && Scaled(e)
  {
    && (e.additive.Some? ==> (t + s) * ONE <= e.additive.value)
    && Relative(t + s, Min(t, s)) <= e.multiplicative.value
  }

  /** Where the relative difference is least: as far from zero as the target, or as far as the additive tolerance reaches. */
  function Farthest(e: ErrTolerance, t: nat): int {
    if e.additive.None? || e.additive.value / ONE - t > t then t else e.additive.value / ONE - t
  }

  /** Some number on the other side of zero is accepted, although zero is not. */
  predicate AcceptsAcross(e: ErrTolerance, target: int) {
    Scaled(e) && target != 0 && !Directed(e, target) &&
    var t, s := Abs(target), Farthest(e, Abs(target));
    s >= 1 && Relative(t + s, s) <= e.multiplicative.value
  }

  /** (t + s) / s is one more than t / s. */
  lemma RelativeSplit(t: nat, s: nat)
    requires s > 0
    ensures Relative(t + s, s) == ChopAndRound(ONE * ONE + t * (ONE * ONE) / s, ONE)
  {
    hide ChopAndRound;
    var k := ONE * ONE;
    var q, r := t * k / s, t * k % s;
    assert t * k == q * s + r;
    assert (t + s) * k == (k + q) * s + r;
    Shrunk((t + s) * k, s, k + q, r);
    assert ((t + s) * ONE) * (ONE * ONE) == ((t + s) * k) * ONE;
  }

  lemma Shrunk(n: nat, s: nat, q: nat, r: nat)
    requires s > 0 && n == q * s + r && r < s
    ensures (n * ONE) / (s * ONE) == q
  {
    var m := s * ONE;
    assert n * ONE == q * m + r * ONE;
    QuotientIs(n * ONE, m, q, r * ONE);
  }

  lemma QuotientIs(n: nat, m: nat, q: nat, r: nat)
    requires n == q * m + r && r < m
    ensures n / m == q
  {
    var p := n / m;
    assert p * m <= n < p * m + m;
    if p < q {
      Multiples(p, q, m);
      assert false;
    } else if q < p {
      Multiples(q, p, m);
      assert false;
    }
  }

  /** Below the target's magnitude, farther from zero is relatively nearer. */
  lemma FartherIsNearer(t: nat, s: nat, s': nat)
    requires 0 < s <= s'
    ensures Relative(t + s', s') <= Relative(t + s, s)
  {
    hide ChopAndRound, Relative;
    RelativeSplit(t, s);
    RelativeSplit(t, s');
    QuotientMono(t * (ONE * ONE), t * (ONE * ONE), s', s);
    RoundMono(ONE * ONE + t * (ONE * ONE) / s', ONE * ONE + t * (ONE * ONE) / s, ONE);
  }

  lemma Reaches(a: int, t: nat, s: nat)
    ensures (t + s) * ONE <= a <==> s <= a / ONE - t
  {
  }

  /** The farthest number decides for all of them. */
  lemma AcrossIff(e: ErrTolerance, t: nat)
    requires t > 0 && Scaled(e)
    ensures (exists s: nat :: s > 0 && Across(e, t, s)) <==>
            var s := Farthest(e, t); s >= 1 && Relative(t + s, s) <= e.multiplicative.value
  {
    hide Relative;
    var best := Farthest(e, t);
    if best >= 1 && Relative(t + best, best) <= e.multiplicative.value {
      if e.additive.Some? { Reaches(e.additive.value, t, best); }
      assert Across(e, t, best);
    }
    forall s: nat | s > 0 && Across(e, t, s) ensures best >= 1 && Relative(t + best, best) <= e.multiplicative.value {
      if e.additive.Some? { Reaches(e.additive.value, t, s); }
      if s <= t {
        FartherIsNearer(t, s, best);
      } else {
        RelativeMono(t + t, t, t + s, t);
      }
    }
  }

  /** On the other side of zero: accepted exactly within both tolerances, and never because of the additive one alone. */
  lemma OtherSide(e: ErrTolerance, target: int, actual: int)
    requires Scaled(e) && (target > 0 > actual || target < 0 < actual)
    ensures Compare(e, target, actual) == if !Directed(e, target) && Across(e, Abs(target), Abs(actual)) then 0
                                          else Sign(target, actual)
  {
    hide Relative;
    assert Abs(target - actual) == Abs(target) + Abs(actual);
  }

  lemma NoneAcross(e: ErrTolerance, target: int, actual: int)
    requires Scaled(e) && (target > 0 > actual || target < 0 < actual) && !AcceptsAcross(e, target)
    ensures Compare(e, target, actual) == Sign(target, actual)
  {
    hide Relative, Compare, Across;
    OtherSide(e, target, actual);
    AcrossIff(e, Abs(target));
  }

  /** Nothing is accepted across zero, or the number is not across zero. */
  predicate Comparable(e: ErrTolerance, target: int, actual: int) {
    !AcceptsAcross(e, target) || ((target > 0 ==> actual >= 0) && (target < 0 ==> actual <= 0))
  }

  /** An output that is too low makes every lower output too low. */
  lemma TooLow(e: ErrTolerance, t: int, a: int, b: int)
    requires a <= b && Comparable(e, t, a) && Compare(e, t, b) > 0
    ensures Compare(e, t, a) > 0
  {
    hide Relative, AcceptsAcross;
    if Scaled(e) {
      if t > 0 && a > 0 {
        RelativeMono(t - b, b, t - a, a);
      } else if t < 0 {
        RelativeMono(t - b, Abs(t), t - a, Abs(t));
      } else if t > 0 && a < 0 {
        NoneAcross(e, t, a);
      }
    }
  }

  /** An output that is too high makes every higher output too high. */
  lemma TooHigh(e: ErrTolerance, t: int, a: int, b: int)
    requires a <= b && Comparable(e, t, b) && Compare(e, t, a) < 0
    ensures Compare(e, t, b) < 0
  {
    hide Relative, AcceptsAcross;
    if Scaled(e) {
      if t > 0 {
        RelativeMono(a - t, t, b - t, t);
      } else if t < 0 && b < 0 {
        RelativeMono(a - t, Abs(a), b - t, Abs(b));
      } else if t < 0 && b > 0 {
        NoneAcross(e, t, b);
      }
    }
  }

  /** Zero is too far from every other target in proportion. */
  lemma ZeroIsFar(e: ErrTolerance, target: int)
    requires Scaled(e) && target != 0 && !(e.dir == RoundDown && target < 0)
    ensures Compare(e, target, 0) == Sign(target, 0)
  {
    hide Relative;
  }

  /** Higher outputs never compare as lower. */
  ghost predicate Monotone(e: ErrTolerance, target: int) {
    forall a, b | a <= b :: Compare(e, target, a) >= Compare(e, target, b)
  }

  /** Exactly for which tolerances and targets the comparison is monotone. */
  lemma MonotoneIff(e: ErrTolerance, target: int)
    ensures Monotone(e, target) <==> !AcceptsAcross(e, target)
  {
    hide Compare, Relative, Across;
    if AcceptsAcross(e, target) {
      AcrossIff(e, Abs(target));
      var s: nat :| s > 0 && Across(e, Abs(target), s);
      var x := if target > 0 then 0 - s else s;
      OtherSide(e, target, x);
      ZeroIsFar(e, target);
      assert Compare(e, target, x) == 0;
      assert !Monotone(e, target) by {
        if target > 0 { assert x <= 0 && Compare(e, target, x) < Compare(e, target, 0); }
        else { assert 0 <= x && Compare(e, target, 0) < Compare(e, target, x); }
      }
    } else {
      forall a, b | a <= b ensures Compare(e, target, a) >= Compare(e, target, b) {
        CompareRange(e, target, a);
        CompareRange(e, target, b);
        if Compare(e, target, b) > 0 { TooLow(e, target, a, b); }
        if Compare(e, target, a) < 0 { TooHigh(e, target, a, b); }
      }
    }
  }

  lemma CompareRange(e: ErrTolerance, target: int, actual: int)
    ensures -1 <= Compare(e, target, actual) <= 1
  {
    hide Relative;
  }

  /** Without an additive tolerance, outputs across zero are accepted from a multiplicative tolerance of two on. */
  lemma FromTwoOn(e: ErrTolerance, target: int)
    requires e.additive.None? && Scaled(e) && target != 0 && !Directed(e, target)
    ensures AcceptsAcross(e, target) <==> e.multiplicative.value >= 2 * ONE
  {
    hide ChopAndRound, Relative;
    var t := Abs(target);
    RelativeSplit(t, t);
    QuotientIs(t * (ONE * ONE), t, ONE * ONE, 0);
    RoundExact(2 * ONE, ONE);
  }

  /** For instance, with a tolerance of twenty the lower of two negative outputs is accepted and the higher one is too low. */
  lemma NegativeOutputs()
    ensures
      var e := ErrTolerance(None, Some(20 * ONE), RoundUnconstrained);
      Compare(e, 100, -1) > 0 && Compare(e, 100, -1000) == 0
  {
    hide ChopAndRound;
    assert (101 * ONE) * (ONE * ONE) / (1 * ONE) == (101 * ONE) * ONE;
    RoundExact(101 * ONE, ONE);
    assert (1100 * ONE) * (ONE * ONE) / (100 * ONE) == (11 * ONE) * ONE;
    RoundExact(11 * ONE, ONE);
  }

  // ---- the search ----

  datatype Found = Found(x: int) | FunctionError | NotConverged

  /** Division by two, truncated towards zero. */
  function Half(s: int): int {
    if s >= 0 then s / 2 else -((-s) / 2)
  }

  /** How many halvings make an interval of `w` points a single point: the binary logarithm, rounded up. */
  function Halvings(w: nat): nat {
    if w <= 1 then 0 else 1 + Halvings((w + 1) / 2)
  }

  lemma {:induction false} HalvingsMono(v: nat, w: nat)
    requires v <= w
    ensures Halvings(v) <= Halvings(w)
  {
    if v > 1 { HalvingsMono((v + 1) / 2, (w + 1) / 2); }
  }

  /** The output at `x` is within the tolerances of the target. */
  ghost predicate Accepted(f: int -> Option<int>, e: ErrTolerance, target: int, x: int) {
    f(x).Some? && Tolerates(e, target, f(x).value)
  }

  /**
   The points that the search can try: midpoints are truncated towards zero, so a bound that is not negative is tried from below,
   one that is not positive from above, and of bounds on both sides of zero neither.
   */
  predicate Within(lo: int, hi: int, x: int) {
    lo < x < hi || (x == lo && 0 <= lo < hi) || (x == hi && lo < hi <= 0)
  }

  /** No errors, larger inputs give no smaller outputs, and all of them can be compared. */
  ghost predicate Increasing(f: int -> Option<int>, e: ErrTolerance, target: int, lo: int, hi: int) {
    && (forall x | Within(lo, hi, x) :: f(x).Some? && Comparable(e, target, f(x).value))
    && (forall x, y | Within(lo, hi, x) && Within(lo, hi, y) && x <= y ::
          f(x).Some? && f(y).Some? ==> f(x).value <= f(y).value)
  }

  lemma MidWithin(lo: int, hi: int)
    requires lo < hi
    ensures
      var est := Half(lo + hi);
      && Within(lo, hi, est)
      && (forall x | Within(lo, est, x) :: Within(lo, hi, x))
      && (forall x | Within(est, hi, x) :: Within(lo, hi, x))
      && (forall x | Within(lo, hi, x) && x < est :: Within(lo, est, x))
      && (forall x | Within(lo, hi, x) && x > est :: Within(est, hi, x))
  {
  }

  lemma IncreasingInside(f: int -> Option<int>, e: ErrTolerance, target: int, lo: int, hi: int, lo': int, hi': int)
    requires Increasing(f, e, target, lo, hi)
    requires forall x | Within(lo', hi', x) :: Within(lo, hi, x)
    ensures Increasing(f, e, target, lo', hi')
  {
    hide Compare, Comparable, Within;
  }

  /** An accepted point stays between the bounds. */
  lemma Narrow(f: int -> Option<int>, e: ErrTolerance, target: int, lo: int, hi: int, est: int, x: int)
    requires Increasing(f, e, target, lo, hi) && Within(lo, hi, est) && Within(lo, hi, x)
    requires Accepted(f, e, target, x) && f(est).Some?
    ensures Compare(e, target, f(est).value) > 0 ==> est < x
    ensures Compare(e, target, f(est).value) < 0 ==> x < est
  {
    hide Compare, Comparable, Within, Tolerates;
    CompareMeans(e, target, f(x).value);
    if x <= est && Compare(e, target, f(est).value) > 0 {
      TooLow(e, target, f(x).value, f(est).value);
    }
    if est <= x && Compare(e, target, f(est).value) < 0 {
      TooHigh(e, target, f(est).value, f(x).value);
    }
  }

  /** What `n` more rounds find between `lo` and `hi`. */
  function Bisect(f: int -> Option<int>, lo: int, hi: int, target: int, e: ErrTolerance, n: int): Found
    decreases n
  {
    if n <= 0 then NotConverged
    else
      var est := Half(lo + hi);
      match f(est)
      case None => FunctionError
      case Some(output) =>
        var c := Compare(e, target, output);
        if c < 0 then Bisect(f, lo, est, target, e, n - 1)
        else if c > 0 then Bisect(f, est, hi, target, e, n - 1)
        else Found(est)
  }

  /** `BinarySearch` */
  method Search(f: int -> Option<int>, lowerbound: int, upperbound: int, target: int, e: ErrTolerance, maxIterations: int)
      returns (r: Found)
    ensures r == Bisect(f, lowerbound, upperbound, target, e, maxIterations)
  {
    hide Compare;
    var lo, hi := lowerbound, upperbound;
    var i := 0;
    while i < maxIterations
      invariant Bisect(f, lo, hi, target, e, maxIterations - i) == Bisect(f, lowerbound, upperbound, target, e, maxIterations)
      decreases maxIterations - i
    {
      var est := Half(lo + hi);
      var output := f(est);
      if output.None? {
        return FunctionError;
      }
      var c := Compare(e, target, output.value);
      if c < 0 {
        hi := est;
      } else if c > 0 {
        lo := est;
      } else {
        return Found(est);
      }
      i := i + 1;
    }
    return NotConverged;
  }

  /** What is found is accepted, and lies between the bounds. */
  lemma {:induction false} FoundIsAccepted(f: int -> Option<int>, lo: int, hi: int, target: int, e: ErrTolerance, n: int)
    requires Bisect(f, lo, hi, target, e, n).Found?
    ensures
      var x := Bisect(f, lo, hi, target, e, n).x;
      Accepted(f, e, target, x) && (lo < hi ==> Within(lo, hi, x))
    decreases n
  {
    hide Compare, Within, Tolerates;
    var est := Half(lo + hi);
    if lo < hi { MidWithin(lo, hi); }
    CompareMeans(e, target, f(est).value);
    var c := Compare(e, target, f(est).value);
    if c < 0 {
      BetweenOrSame(f, lo, est, lo, hi, target, e, n - 1);
      FoundIsAccepted(f, lo, est, target, e, n - 1);
    } else if c > 0 {
      BetweenOrSame(f, est, hi, lo, hi, target, e, n - 1);
      FoundIsAccepted(f, est, hi, target, e, n - 1);
    }
  }

  /** The function's error is reported exactly when it is met: there is one at a point that is tried, and none is passed over. */
  lemma {:induction false} SearchErrors(f: int -> Option<int>, lo: int, hi: int, target: int, e: ErrTolerance, n: int)
    ensures n <= 0 ==> Bisect(f, lo, hi, target, e, n) == NotConverged
    ensures n > 0 && f(Half(lo + hi)).None? ==> Bisect(f, lo, hi, target, e, n) == FunctionError
    ensures Bisect(f, lo, hi, target, e, n) == FunctionError ==> exists x :: f(x).None? && (lo < hi ==> Within(lo, hi, x))
    decreases n
  {
    hide Compare, Within;
    if n > 0 {
      var est := Half(lo + hi);
      if lo < hi { MidWithin(lo, hi); }
      if f(est).Some? {
        var c := Compare(e, target, f(est).value);
        if c < 0 {
          SearchErrors(f, lo, est, target, e, n - 1);
          ErrorAtBound(f, lo, est, target, e, n - 1);
        } else if c > 0 {
          SearchErrors(f, est, hi, target, e, n - 1);
          ErrorAtBound(f, est, hi, target, e, n - 1);
        }
      }
    }
  }

  /** A search between equal bounds meets an error only at the bound. */
  lemma {:induction false} ErrorAtBound(f: int -> Option<int>, lo: int, hi: int, target: int, e: ErrTolerance, n: int)
    ensures lo == hi && f(lo).Some? ==> Bisect(f, lo, hi, target, e, n) != FunctionError
    decreases n
  {
    hide Compare;
    if n > 0 && lo == hi && f(lo).Some? {
      ErrorAtBound(f, lo, hi, target, e, n - 1);
    }
  }

  /** A midpoint of two bounds lies between them, and a search between equal bounds tries only the bound. */
  lemma BetweenOrSame(f: int -> Option<int>, lo': int, hi': int, lo: int, hi: int, target: int, e: ErrTolerance, n: int)
    requires lo < hi ==> (lo' == lo && hi' == Half(lo + hi)) || (lo' == Half(lo + hi) && hi' == hi)
    ensures lo < hi ==> lo' <= hi'
    ensures lo' == hi' && Bisect(f, lo', hi', target, e, n).Found? ==> Bisect(f, lo', hi', target, e, n).x == lo'
  {
    hide Compare, Bisect;
    if lo' == hi' { FoundAtBound(f, lo', target, e, n); }
  }

  /** With nothing left between the bounds, the only point that is tried is the bound itself. */
  lemma {:induction false} FoundAtBound(f: int -> Option<int>, lo: int, target: int, e: ErrTolerance, n: int)
    ensures Bisect(f, lo, lo, target, e, n).Found? ==> Bisect(f, lo, lo, target, e, n).x == lo
    decreases n
  {
    hide Compare;
    if n > 0 && f(lo).Some? {
      FoundAtBound(f, lo, target, e, n - 1);
    }
  }

  /** As long as the rounds suffice to halve the interval down to one point, an accepted point in it is not missed. */
  lemma {:induction false} NotMissed(f: int -> Option<int>, lo: int, hi: int, target: int, e: ErrTolerance, n: int, x: int)
    requires lo < hi && Within(lo, hi, x) && Accepted(f, e, target, x)
    requires Increasing(f, e, target, lo, hi) && n > Halvings(hi - lo)
    ensures Bisect(f, lo, hi, target, e, n).Found?
    decreases n
  {
    hide Compare, Comparable, Halvings, Within, Increasing, Accepted;
    var est := Half(lo + hi);
    MidWithin(lo, hi);
    Tried(f, e, target, lo, hi, est);
    Narrow(f, e, target, lo, hi, est, x);
    MidShrinks(lo, hi);
    if Compare(e, target, f(est).value) < 0 {
      Nonempty(lo, est, x);
      IncreasingInside(f, e, target, lo, hi, lo, est);
      NotMissed(f, lo, est, target, e, n - 1, x);
    } else if Compare(e, target, f(est).value) > 0 {
      Nonempty(est, hi, x);
      IncreasingInside(f, e, target, lo, hi, est, hi);
      NotMissed(f, est, hi, target, e, n - 1, x);
    }
  }

  lemma Nonempty(lo: int, hi: int, x: int)
    requires Within(lo, hi, x)
    ensures lo < hi
    ensures hi - lo == 1 ==> x == if lo >= 0 then lo else hi
  {
  }

  lemma Tried(f: int -> Option<int>, e: ErrTolerance, target: int, lo: int, hi: int, x: int)
    requires Increasing(f, e, target, lo, hi) && Within(lo, hi, x)
    ensures f(x).Some?
  {
    hide Comparable, Within;
  }

  /** Either half takes fewer halvings, unless there is one point only, which is then the midpoint. */
  lemma MidShrinks(lo: int, hi: int)
    requires lo < hi
    ensures
      var est := Half(lo + hi);
      && lo <= est <= hi
      && (hi - lo > 1 ==> Halvings(est - lo) < Halvings(hi - lo) && Halvings(hi - est) < Halvings(hi - lo))
      && (hi - lo == 1 ==> forall x | Within(lo, hi, x) :: x == est)
  {
    hide Halvings;
    var w, est := hi - lo, Half(lo + hi);
    assert est - lo == w / 2 || hi - est == w / 2;
    Shrink(w, w / 2);
  }

  /** For an increasing function and enough rounds, the search finds a point exactly when there is one to be found. */
  lemma SearchFinds(f: int -> Option<int>, lo: int, hi: int, target: int, e: ErrTolerance, n: int)
    requires lo < hi && Increasing(f, e, target, lo, hi) && n > Halvings(hi - lo)
    ensures Bisect(f, lo, hi, target, e, n).Found? <==> exists x :: Within(lo, hi, x) && Accepted(f, e, target, x)
  {
    hide Compare, Comparable, Halvings, Bisect, Increasing, Accepted, Within;
    if Bisect(f, lo, hi, target, e, n).Found? {
      FoundIsAccepted(f, lo, hi, target, e, n);
    }
    if x :| Within(lo, hi, x) && Accepted(f, e, target, x) {
      NotMissed(f, lo, hi, target, e, n, x);
    }
  }

  lemma Shrink(w: nat, d: nat)
    requires w >= 1 && d == w / 2
    ensures w > 1 ==> Halvings(d) < Halvings(w) && Halvings(w - d) < Halvings(w)
  {
    if w > 1 {
      HalvingsMono(d, (w + 1) / 2);
      HalvingsMono(w - d, (w + 1) / 2);
    }
  }
}
