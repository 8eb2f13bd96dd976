/**
 Sets of decimal coins. Amounts are integers in units of 10^-18; a denom that is absent has
 amount zero, and no operation leaves a zero amount behind.
 */
module DecCoins {
  import opened Dec
  import opened Rounding

  type Denom = string
  type Coins = map<Denom, int>

  function Amount(c: Coins, d: Denom): int {
    if d in c then c[d] else 0
  }

  /** No zero amounts: the form in which coins are stored. */
  ghost predicate Canonical(c: Coins) {
    forall d | d in c :: c[d] != 0
  }

  ghost predicate NonNegative(c: Coins) {
    forall d | d in c :: c[d] >= 0
  }

  ghost predicate AtMost(a: Coins, b: Coins) {
    forall d :: Amount(a, d) <= Amount(b, d)
  }

  function Add(a: Coins, b: Coins): (r: Coins)
    ensures forall d :: Amount(r, d) == Amount(a, d) + Amount(b, d)
    ensures Canonical(r)
  {
    map d | d in a.Keys + b.Keys && Amount(a, d) + Amount(b, d) != 0 :: Amount(a, d) + Amount(b, d)
  }

  function Minus(a: Coins, b: Coins): (r: Coins)
    ensures forall d :: Amount(r, d) == Amount(a, d) - Amount(b, d)
    ensures Canonical(r)
  {
    map d | d in a.Keys + b.Keys && Amount(a, d) - Amount(b, d) != 0 :: Amount(a, d) - Amount(b, d)
  }

  /** `MulDec`: every amount times a decimal, rounded half to even. */
  function MulDec(c: Coins, f: int): (r: Coins)
    ensures forall d :: Amount(r, d) == if d in c then ChopAndRound(c[d] * f, ONE) else 0
    ensures Canonical(r)
  {
    map d | d in c && ChopAndRound(c[d] * f, ONE) != 0 :: ChopAndRound(c[d] * f, ONE)
  }

  predicate AnyNegative(c: Coins) {
    exists d :: d in c && c[d] < 0
  }

  /** `TruncateDecimal`: whole coins, in units of one, and the change. */
  function Truncate(c: Coins): (r: (map<Denom, int>, Coins))
    requires !AnyNegative(c)
    ensures forall d :: Amount(c, d) == Amount(r.0, d) * ONE + Amount(r.1, d)
    ensures forall d :: Amount(r.0, d) >= 0 && 0 <= Amount(r.1, d) < ONE
    ensures Canonical(r.0) && Canonical(r.1)
  {
    (map d | d in c && c[d] / ONE != 0 :: c[d] / ONE,
     map d | d in c && c[d] % ONE != 0 :: c[d] % ONE)
  }

  /** `NewDecCoinsFromCoins` */
  function FromWhole(c: map<Denom, int>): (r: Coins)
    ensures forall d :: Amount(r, d) == Amount(c, d) * ONE
    ensures Canonical(r)
  {
    map d | d in c && c[d] != 0 :: c[d] * ONE
  }

  /** Coins in stored form are equal when all their amounts are. */
  lemma SameAmounts(a: Coins, b: Coins)
    requires Canonical(a) && Canonical(b)
    requires forall d :: Amount(a, d) == Amount(b, d)
    ensures a == b
  {
    assert forall d :: d in a <==> Amount(a, d) != 0;
    assert forall d :: d in b <==> Amount(b, d) != 0;
  }

  /** The whole coins and the change of some coins are those coins. */
  lemma TruncateBack(c: Coins)
    requires Canonical(c) && !AnyNegative(c)
    ensures Add(FromWhole(Truncate(c).0), Truncate(c).1) == c
  {
    SameAmounts(Add(FromWhole(Truncate(c).0), Truncate(c).1), c);
  }
}
