/** Decimals with 36 places: an integer in units of 10^-36, at most 1144 bits long. */
module BigDec {
  import opened Options
  import opened RealPow
  import opened Binary
  import opened Rounding

  const ONE: int := 1_000_000_000_000_000_000_000_000_000_000_000_000
  const TWO: int := 2 * ONE

  /** 1024 bits and 120 for the decimal places */
  const MAX_DEC_BIT_LEN: nat := 1144

  /** What `assertMaxBitLen` lets pass. */
  predicate Fits(x: int) {
    BitLen(Abs(x)) <= MAX_DEC_BIT_LEN
  }

  lemma FitsMono(x: int, y: int)
    requires Abs(x) <= Abs(y) && Fits(y)
    ensures Fits(x)
  {
    BitLenMono(Abs(x), Abs(y));
  }

  /** Numbers up to one in magnitude fit: 1024^12 is more than 10^36. */
  lemma UnitFits(x: int)
    requires -ONE <= x <= ONE
    ensures Fits(x)
  {
    hide BitLen;
    TenBits(ONE, 976_562_500_000_000_000_000_000_000_000_000);
    TenBits(976_562_500_000_000_000_000_000_000_000_000, 953_674_316_406_250_000_000_000_000_000);
    TenBits(953_674_316_406_250_000_000_000_000_000, 931_322_574_615_478_515_625_000_000);
    TenBits(931_322_574_615_478_515_625_000_000, 909_494_701_772_928_237_915_039);
    TenBits(909_494_701_772_928_237_915_039, 888_178_419_700_125_232_338);
    TenBits(888_178_419_700_125_232_338, 867_361_737_988_403_547);
    TenBits(867_361_737_988_403_547, 847_032_947_254_300);
    TenBits(847_032_947_254_300, 827_180_612_553);
    TenBits(827_180_612_553, 807_793_566);
    TenBits(807_793_566, 788_860);
    TenBits(788_860, 770);
    TenBits(770, 0);
    NoBits();
    BitLenMono(Abs(x), ONE);
  }

  lemma NoBits()
    ensures BitLen(0) == 0
  {
  }

  /** `MulMut`: the rounded product, or `None` for the overflow panic. */
  function Mul(x: int, y: int): Option<int> {
    var r := ChopAndRound(x * y, ONE);
    if Fits(r) then Some(r) else None
  }

  // ---- the numbers that the integers stand for ----

  ghost predicate IsUlp(u: real) {
    u > 0.0 && u * ONE as real == 1.0
  }

  /** One unit of the last place. */
  ghost function Ulp(): (u: real)
    ensures IsUlp(u)
  {
    assert IsUlp(1.0 / ONE as real);
    var u: real :| IsUlp(u);
    u
  }

  ghost function Value(x: int): real {
    x as real * Ulp()
  }

  /** The rounded product is within half a unit of the exact product of the values. */
  lemma MulValue(x: int, y: int)
    ensures -Ulp() <= 2.0 * (Value(ChopAndRound(x * y, ONE)) - Value(x) * Value(y)) <= Ulp()
  {
    hide ChopAndRound;
    var r := ChopAndRound(x * y, ONE);
    RoundNearest(x * y, ONE);
    RoundedProduct(x as real, y as real, r as real, ONE as real, Ulp());
  }

  lemma UlpBelowOne()
    ensures 0.0 < Ulp() < 1.0
  {
    Stretch(1.0, ONE as real, Ulp());
    if Ulp() == 1.0 { assert false; }
  }

  lemma ValueRange(x: int)
    ensures Value(0) == 0.0 && Value(ONE) == 1.0
    ensures 0 <= x ==> 0.0 <= Value(x)
    ensures x <= ONE ==> Value(x) <= 1.0
  {
    var u := Ulp();
    if 0 <= x { Stretch(0.0, x as real, u); }
    if x <= ONE { Stretch(x as real, ONE as real, u); }
  }
}
