/**
 The reward accumulator as a state machine: positions share a value per share that only grows,
 and settle what they have earned whenever they are touched.
 */
module Accum {
  import opened Dec
  import opened DecCoins
  import opened MapSum
  import opened Rounding

  /** A position: its shares, the value per share it last settled at, and its settled rewards. */
  datatype Record = Record(numShares: int, start: Coins, unclaimed: Coins)

  datatype State = State(value: Coins, total: int, positions: map<string, Record>)

  datatype Error = NoPosition | NonPositiveShares | TooManyShares | ZeroShares | NegativeRewards

  datatype Outcome<T> = Ok(value: T) | Err(error: Error) | Panic

  const INIT: State := State(map[], 0, map[])

  // ---- the operations ----

  /** `GetTotalRewards`: what the position has settled, plus its shares of the value since then. */
  function TotalRewards(s: State, p: Record): Outcome<Coins> {
    var diff := Minus(s.value, p.start);
    if AnyNegative(diff) then Panic else Ok(Add(p.unclaimed, MulDec(diff, p.numShares)))
  }

  function AddToAccumulator(s: State, amt: Coins): State {
    s.(value := Add(s.value, amt))
  }

  function NewPosition(s: State, name: string, n: int): State {
    s.(positions := s.positions[name := Record(n, s.value, map[])], total := s.total + n)
  }

  /** Settles a position and changes its shares by `n`. */
  function Resize(s: State, name: string, n: int): Outcome<State>
    requires name in s.positions
  {
    var p := s.positions[name];
    match TotalRewards(s, p)
    case Ok(rewards) => Ok(s.(positions := s.positions[name := Record(p.numShares + n, s.value, rewards)], total := s.total + n))
    case Err(e) => Err(e)
    case Panic => Panic
  }

  function AddToPosition(s: State, name: string, n: int): Outcome<State> {
    if n <= 0 then Err(NonPositiveShares)
    else if name !in s.positions then Err(NoPosition)
    else Resize(s, name, n)
  }

  function RemoveFromPosition(s: State, name: string, n: int): Outcome<State> {
    if n <= 0 then Err(NonPositiveShares)
    else if name !in s.positions then Err(NoPosition)
    else if n > s.positions[name].numShares then Err(TooManyShares)
    else Resize(s, name, -n)
  }

  function UpdatePosition(s: State, name: string, n: int): Outcome<State> {
    if n == 0 then Err(ZeroShares)
    else if n < 0 then RemoveFromPosition(s, name, -n)
    else AddToPosition(s, name, n)
  }

  /** What a claim hands out: whole coins and dust. */
  datatype Claimed = Claimed(state: State, whole: map<Denom, int>, dust: Coins)

  function ClaimRewards(s: State, name: string): Outcome<Claimed> {
    if name !in s.positions then Err(NoPosition)
    else
      var p := s.positions[name];
      match TotalRewards(s, p)
      case Ok(rewards) =>
        if AnyNegative(rewards) then Panic
        else
          var (whole, dust) := Truncate(rewards);
          var positions' := if p.numShares == 0 then s.positions - {name}
                            else s.positions[name := Record(p.numShares, s.value, map[])];
          Ok(Claimed(s.(positions := positions'), whole, dust))
      case Err(e) => Err(e)
      case Panic => Panic
  }

  /** `DeletePosition`: claims, then forgets the position; the pay-out is whole coins and dust together. */
  function DeletePosition(s: State, name: string): Outcome<(State, Coins)> {
    if name !in s.positions then Err(NoPosition)
    else
      match ClaimRewards(s, name)
      case Ok(c) =>
        Ok((c.state.(positions := c.state.positions - {name}, total := s.total - s.positions[name].numShares),
            Add(FromWhole(c.whole), c.dust)))
      case Err(e) => Err(e)
      case Panic => Panic
  }

  function AddToUnclaimedRewards(s: State, name: string, rewards: Coins): Outcome<State> {
    if name !in s.positions then Err(NoPosition)
    else if AnyNegative(rewards) then Err(NegativeRewards)
    else
      var p := s.positions[name];
      Ok(s.(positions := s.positions[name := p.(unclaimed := Add(p.unclaimed, rewards))]))
  }

  // ---- the invariant ----

  ghost predicate RecordOK(value: Coins, p: Record) {
    && p.numShares >= 0
    && AtMost(p.start, value)
    && NonNegative(p.unclaimed) && Canonical(p.unclaimed)
  }

  ghost function Shares(s: State): map<string, int> {
    map n | n in s.positions :: s.positions[n].numShares
  }

  /** The shares of all positions add up, and no position started above the current value. */
  ghost predicate Inv(s: State) {
    && s.total == Total(Shares(s))
    && forall n | n in s.positions :: RecordOK(s.value, s.positions[n])
  }

  lemma InitInv()
    ensures Inv(INIT)
  {
  }

  /** Under the invariant rewards can be computed, are not negative, and are in stored form. */
  lemma RewardsDefined(s: State, p: Record)
    requires RecordOK(s.value, p)
    ensures TotalRewards(s, p).Ok?
    ensures !AnyNegative(TotalRewards(s, p).value) && NonNegative(TotalRewards(s, p).value)
    ensures Canonical(TotalRewards(s, p).value)
  {
    hide ChopAndRound;
    var diff := Minus(s.value, p.start);
    assert forall d :: Amount(diff, d) >= 0;
    assert !AnyNegative(diff) by {
      forall d | d in diff ensures diff[d] >= 0 { assert Amount(diff, d) >= 0; }
    }
    var rewards := TotalRewards(s, p).value;
    forall d ensures Amount(rewards, d) >= 0 {
      if d in diff {
        assert Amount(diff, d) >= 0;
        Product(diff[d], p.numShares);
        RoundMono(0, diff[d] * p.numShares, ONE);
        RoundExact(0, ONE);
      }
      assert Amount(p.unclaimed, d) >= 0;
    }
    forall d | d in rewards ensures rewards[d] >= 0 { assert Amount(rewards, d) >= 0; }
  }

  lemma SharesUpdate(s: State, s': State, name: string, p: Record)
    requires s'.positions == s.positions[name := p]
    ensures Total(Shares(s')) == Total(Shares(s)) + p.numShares - (if name in s.positions then s.positions[name].numShares else 0)
  {
    assert Shares(s') == Shares(s)[name := p.numShares];
    TotalUpdate(Shares(s), name, p.numShares);
  }

  lemma SharesRemove(s: State, s': State, name: string)
    requires name in s.positions && s'.positions == s.positions - {name}
    ensures Total(Shares(s')) == Total(Shares(s)) - s.positions[name].numShares
  {
    assert Shares(s') == Shares(s) - {name};
    TotalRemove(Shares(s), name);
  }
}
