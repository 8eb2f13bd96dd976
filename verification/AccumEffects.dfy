/**
 What each call of the reward accumulator does, position by position: when it succeeds, with which error it fails, what it
 changes, and what it leaves alone. Rewards are stated as the nearest decimals to what was earned.
 */
module AccumEffects {
  import opened Dec
  import opened DecCoins
  import opened Rounding
  import opened Accum
  import opened AccumRun

  /** Of every denom, `r` has what was settled plus the decimal nearest to what the shares have earned since. */
  ghost predicate IsReward(s: State, p: Record, r: Coins) {
    && Canonical(r)
    && forall d :: Nearest((Amount(s.value, d) - Amount(p.start, d)) * p.numShares, ONE, Amount(r, d) - Amount(p.unclaimed, d))
  }

  lemma RewardAmount(s: State, p: Record, d: Denom)
    requires TotalRewards(s, p).Ok?
    ensures Nearest((Amount(s.value, d) - Amount(p.start, d)) * p.numShares, ONE,
                    Amount(TotalRewards(s, p).value, d) - Amount(p.unclaimed, d))
  {
    hide ChopAndRound, Nearest;
    var diff := Minus(s.value, p.start);
    var earned := Amount(diff, d) * p.numShares;
    if d in diff {
      RoundNearest(earned, ONE);
    } else {
      assert earned == 0;
      RoundExact(0, ONE);
      RoundNearest(0, ONE);
    }
  }

  lemma StartedAbove(value: Coins, start: Coins)
    ensures AnyNegative(Minus(value, start)) <==> !AtMost(start, value)
  {
    var diff := Minus(value, start);
    if AnyNegative(diff) {
      var d :| d in diff && diff[d] < 0;
      assert Amount(diff, d) < 0;
    } else {
      forall d ensures Amount(start, d) <= Amount(value, d) { assert Amount(diff, d) >= 0; }
    }
  }

  /** Rewards can be computed exactly if the position did not start above the value, and are then the nearest decimals. */
  lemma RewardsAre(s: State, p: Record)
    ensures TotalRewards(s, p).Ok? <==> AtMost(p.start, s.value)
    ensures !TotalRewards(s, p).Ok? ==> TotalRewards(s, p) == Panic
    ensures TotalRewards(s, p).Ok? ==> IsReward(s, p, TotalRewards(s, p).value)
  {
    hide MulDec, Nearest, ChopAndRound, Minus, AnyNegative, AtMost, Amount;
    StartedAbove(s.value, p.start);
    if TotalRewards(s, p).Ok? {
      forall d
        ensures Nearest((Amount(s.value, d) - Amount(p.start, d)) * p.numShares, ONE,
                        Amount(TotalRewards(s, p).value, d) - Amount(p.unclaimed, d))
      {
        RewardAmount(s, p, d);
      }
    }
  }

  // ---- changes of one position ----

  ghost predicate OthersSame(s: State, s': State, name: string) {
    && s'.value == s.value
    && s'.positions - {name} == s.positions - {name}
  }

  /** The position has `n` more shares, starts at the current value, and has its rewards unclaimed; the total follows. */
  ghost predicate Moved(s: State, s': State, name: string, n: int) {
    && OthersSame(s, s', name)
    && name in s.positions && name in s'.positions
    && s'.total == s.total + n
    && s'.positions[name].numShares == s.positions[name].numShares + n
    && s'.positions[name].start == s.value
    && IsReward(s, s.positions[name], s'.positions[name].unclaimed)
  }

  lemma ResizeMoves(s: State, name: string, n: int)
    requires Inv(s) && name in s.positions
    ensures Resize(s, name, n).Ok? && Moved(s, Resize(s, name, n).value, name, n)
  {
    hide TotalRewards, IsReward, Inv;
    InvRecord(s, name);
    RewardsAre(s, s.positions[name]);
  }

  lemma AddEffect(s: State, name: string, n: int)
    requires Inv(s)
    ensures
      var o := AddToPosition(s, name, n);
      if n <= 0 then o == Err(NonPositiveShares)
      else if name !in s.positions then o == Err(NoPosition)
      else o.Ok? && Moved(s, o.value, name, n)
  {
    hide Inv, Resize, Moved;
    if name in s.positions { ResizeMoves(s, name, n); }
  }

  lemma RemoveEffect(s: State, name: string, n: int)
    requires Inv(s)
    ensures
      var o := RemoveFromPosition(s, name, n);
      if n <= 0 then o == Err(NonPositiveShares)
      else if name !in s.positions then o == Err(NoPosition)
      else if n > s.positions[name].numShares then o == Err(TooManyShares)
      else o.Ok? && Moved(s, o.value, name, -n)
  {
    hide Inv, Resize, Moved;
    if name in s.positions { ResizeMoves(s, name, -n); }
  }

  /** An update adds `n` shares, whatever the sign of `n`. */
  lemma UpdateEffect(s: State, name: string, n: int)
    requires Inv(s)
    ensures
      var o := UpdatePosition(s, name, n);
      if n == 0 then o == Err(ZeroShares)
      else if name !in s.positions then o == Err(NoPosition)
      else if s.positions[name].numShares + n < 0 then o == Err(TooManyShares)
      else o.Ok? && Moved(s, o.value, name, n)
  {
    hide Inv, AddToPosition, RemoveFromPosition, Moved;
    if n < 0 { RemoveEffect(s, name, -n); } else { AddEffect(s, name, n); }
    if name in s.positions { InvRecord(s, name); }
  }

  /** `to` is the state after closing the position and opening it again with `n` shares, the pay-out kept as unclaimed rewards. */
  ghost predicate Reopened(s: State, to: State, name: string, n: int) {
    && DeletePosition(s, name).Ok?
    && var (closed, paid) := DeletePosition(s, name).value;
       var reopened := NewPosition(closed, name, n);
       && to.value == reopened.value && to.total == reopened.total
       && to.positions == reopened.positions[name := reopened.positions[name].(unclaimed := paid)]
  }

  lemma ResizeReopens(s: State, name: string, n: int)
    requires Inv(s) && name in s.positions
    ensures Resize(s, name, n).Ok? && Reopened(s, Resize(s, name, n).value, name, s.positions[name].numShares + n)
  {
    hide Inv, TotalRewards;
    var p := s.positions[name];
    InvRecord(s, name);
    RewardsDefined(s, p);
    TruncateBack(TotalRewards(s, p).value);
    var (closed, paid) := DeletePosition(s, name).value;
    assert closed.positions == s.positions - {name};
  }

  /** An update is closing the position and opening it again with the new number of shares. */
  lemma UpdateIsCloseAndReopen(s: State, name: string, n: int)
    requires Inv(s) && name in s.positions && n != 0 && s.positions[name].numShares + n >= 0
    ensures UpdatePosition(s, name, n).Ok?
    ensures Reopened(s, UpdatePosition(s, name, n).value, name, s.positions[name].numShares + n)
  {
    hide Inv, Resize, Reopened;
    ResizeReopens(s, name, n);
  }

  // ---- opening, claiming, closing, granting, depositing ----

  /** A new position starts at the current value with nothing unclaimed. */
  lemma NewEffect(s: State, name: string, n: int)
    ensures
      var s' := NewPosition(s, name, n);
      && OthersSame(s, s', name) && name in s'.positions
      && s'.total == s.total + n
      && s'.positions[name].numShares == n && s'.positions[name].start == s.value
      && forall d :: Amount(s'.positions[name].unclaimed, d) == 0
  {
  }

  /** A claim pays the rewards, as whole coins and change, and forgets the position exactly if it has no shares. */
  lemma ClaimEffect(s: State, name: string)
    requires Inv(s)
    ensures
      var o := ClaimRewards(s, name);
      if name !in s.positions then o == Err(NoPosition)
      else
        var p := s.positions[name];
        && o.Ok?
        && OthersSame(s, o.value.state, name) && o.value.state.total == s.total
        && IsReward(s, p, Add(FromWhole(o.value.whole), o.value.dust))
        && (forall d :: Amount(o.value.whole, d) >= 0 && 0 <= Amount(o.value.dust, d) < ONE)
        && (name in o.value.state.positions <==> p.numShares != 0)
        && (p.numShares != 0 ==>
              var p' := o.value.state.positions[name];
              p'.numShares == p.numShares && p'.start == s.value && forall d :: Amount(p'.unclaimed, d) == 0)
  {
    hide Inv, TotalRewards, IsReward, FromWhole;
    if name in s.positions {
      var p := s.positions[name];
      InvRecord(s, name);
      RewardsDefined(s, p);
      RewardsAre(s, p);
      TruncateBack(TotalRewards(s, p).value);
    }
  }

  /** Closing a position pays its rewards and takes its shares out of the total. */
  lemma CloseEffect(s: State, name: string)
    requires Inv(s)
    ensures
      var o := DeletePosition(s, name);
      if name !in s.positions then o == Err(NoPosition)
      else
        && o.Ok?
        && OthersSame(s, o.value.0, name) && name !in o.value.0.positions
        && o.value.0.total == s.total - s.positions[name].numShares
        && IsReward(s, s.positions[name], o.value.1)
  {
    hide Inv, TotalRewards, IsReward, ClaimRewards;
    ClaimEffect(s, name);
  }

  /** A grant raises the unclaimed rewards of one position. */
  lemma GrantEffect(s: State, name: string, rewards: Coins)
    ensures
      var o := AddToUnclaimedRewards(s, name, rewards);
      if name !in s.positions then o == Err(NoPosition)
      else if exists d :: Amount(rewards, d) < 0 then o == Err(NegativeRewards)
      else
        && o.Ok?
        && OthersSame(s, o.value, name) && name in o.value.positions && o.value.total == s.total
        && o.value.positions[name].numShares == s.positions[name].numShares
        && o.value.positions[name].start == s.positions[name].start
        && forall d :: Amount(o.value.positions[name].unclaimed, d) == Amount(s.positions[name].unclaimed, d) + Amount(rewards, d)
  {
    assert AnyNegative(rewards) <==> exists d :: Amount(rewards, d) < 0 by {
      if AnyNegative(rewards) {
        var d :| d in rewards && rewards[d] < 0;
        assert Amount(rewards, d) < 0;
      }
    }
  }

  /** A deposit raises the value of every share, and touches nothing else. */
  lemma DepositEffect(s: State, amt: Coins)
    ensures
      var s' := AddToAccumulator(s, amt);
      && s'.total == s.total && s'.positions == s.positions
      && forall d :: Amount(s'.value, d) == Amount(s.value, d) + Amount(amt, d)
  {
  }
}
