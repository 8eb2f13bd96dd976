/** Decimals with 18 places, as integers in units of their last place. */
module Dec {
  const ONE: int := 1_000_000_000_000_000_000

  ghost predicate IsUlp(u: real) {
    u > 0.0 && u * ONE as real == 1.0
  }

  /** One unit of the last place. */
  ghost function Ulp(): (u: real)
    ensures IsUlp(u)
  {
    assert IsUlp(1.0 / ONE as real);
    var u: real :| IsUlp(u);
    u
  }

  /** The number that the integer stands for. */
  ghost function Value(x: int): real {
    x as real * Ulp()
  }
}
