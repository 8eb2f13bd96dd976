/** Whole runs of the reward accumulator: what stays true, and where the money goes. */
module AccumRun {
  import opened Dec
  import opened DecCoins
  import opened MapSum
  import opened Rounding
  import opened Accum

  datatype Op =
    | Deposit(amt: Coins)
    | New(name: string, n: int)
    | AddTo(name: string, n: int)
    | RemoveFrom(name: string, n: int)
    | Change(name: string, n: int)
    | Claim(name: string)
    | Close(name: string)
    | Grant(name: string, rewards: Coins)

  /** One call: the new state, what it paid out, and whether it panicked. Errors and panics write nothing. */
  datatype Effect = Effect(state: State, paid: Coins, done: bool, panicked: bool)

  function Resized(s: State, o: Outcome<State>): Effect {
    match o
    case Ok(s') => Effect(s', map[], true, false)
    case Err(_) => Effect(s, map[], false, false)
    case Panic => Effect(s, map[], false, true)
  }

  function Step(s: State, op: Op): Effect {
    match op
    case Deposit(amt) => Effect(AddToAccumulator(s, amt), map[], true, false)
    case New(name, n) => Effect(NewPosition(s, name, n), map[], true, false)
    case AddTo(name, n) => Resized(s, AddToPosition(s, name, n))
    case RemoveFrom(name, n) => Resized(s, RemoveFromPosition(s, name, n))
    case Change(name, n) => Resized(s, UpdatePosition(s, name, n))
    case Grant(name, rewards) => Resized(s, AddToUnclaimedRewards(s, name, rewards))
    case Claim(name) =>
      (match ClaimRewards(s, name)
       case Ok(c) => Effect(c.state, Add(FromWhole(c.whole), c.dust), true, false)
       case Err(_) => Effect(s, map[], false, false)
       case Panic => Effect(s, map[], false, true))
    case Close(name) =>
      (match DeletePosition(s, name)
       case Ok((s', paid)) => Effect(s', paid, true, false)
       case Err(_) => Effect(s, map[], false, false)
       case Panic => Effect(s, map[], false, true))
  }

  /** What callers owe: no negative deposits, and new positions with fresh names and no negative shares. */
  ghost predicate Allowed(s: State, op: Op) {
    match op
    case Deposit(amt) => NonNegative(amt)
    case New(name, n) => name !in s.positions && n >= 0
    case _ => true
  }

  ghost predicate AllowedRun(s: State, ops: seq<Op>)
    decreases |ops|
  {
    ops != [] ==> Allowed(s, ops[0]) && AllowedRun(Step(s, ops[0]).state, ops[1..])
  }

  ghost function Run(s: State, ops: seq<Op>): State
    decreases |ops|
  {
    if ops == [] then s else Run(Step(s, ops[0]).state, ops[1..])
  }

  // ---- the four shapes that a state can take in one step ----

  /** One position written, with the total following its shares. */
  lemma WriteKeepsInv(s: State, s': State, name: string, p: Record)
    requires Inv(s) && RecordOK(s.value, p)
    requires s'.value == s.value && s'.positions == s.positions[name := p]
    requires s'.total == s.total + p.numShares - (if name in s.positions then s.positions[name].numShares else 0)
    ensures Inv(s')
  {
    hide RecordOK, Total;
    SharesUpdate(s, s', name, p);
  }

  lemma EraseKeepsInv(s: State, s': State, name: string)
    requires Inv(s) && name in s.positions
    requires s'.value == s.value && s'.positions == s.positions - {name}
    requires s'.total == s.total - s.positions[name].numShares
    ensures Inv(s')
  {
    hide RecordOK, Total;
    SharesRemove(s, s', name);
  }

  lemma DepositKeepsInv(s: State, amt: Coins)
    requires Inv(s) && NonNegative(amt)
    ensures Inv(AddToAccumulator(s, amt))
  {
    hide Total;
    var s' := AddToAccumulator(s, amt);
    assert Shares(s') == Shares(s);
    forall n | n in s'.positions ensures RecordOK(s'.value, s'.positions[n]) {
      forall d ensures Amount(s'.positions[n].start, d) <= Amount(s'.value, d) {
        assert Amount(amt, d) >= 0;
        assert RecordOK(s.value, s.positions[n]);
      }
    }
  }

  lemma ResizeKeepsInv(s: State, name: string, n: int)
    requires Inv(s) && name in s.positions && s.positions[name].numShares + n >= 0
    ensures Resize(s, name, n).Ok? && Inv(Resize(s, name, n).value)
  {
    hide Total, TotalRewards;
    var p := s.positions[name];
    RewardsDefined(s, p);
    WriteKeepsInv(s, Resize(s, name, n).value, name, Record(p.numShares + n, s.value, TotalRewards(s, p).value));
  }

  lemma ClaimKeepsInv(s: State, name: string)
    requires Inv(s) && name in s.positions
    ensures ClaimRewards(s, name).Ok? && Inv(ClaimRewards(s, name).value.state)
  {
    hide Total, TotalRewards, Inv, Truncate;
    var p := s.positions[name];
    assert RecordOK(s.value, p) by { InvRecord(s, name); }
    RewardsDefined(s, p);
    var s' := ClaimRewards(s, name).value.state;
    if p.numShares == 0 {
      EraseKeepsInv(s, s', name);
    } else {
      WriteKeepsInv(s, s', name, Record(p.numShares, s.value, map[]));
    }
  }

  lemma InvRecord(s: State, name: string)
    requires Inv(s) && name in s.positions
    ensures RecordOK(s.value, s.positions[name])
  {
  }

  lemma DeleteKeepsInv(s: State, name: string)
    requires Inv(s) && name in s.positions
    ensures DeletePosition(s, name).Ok? && Inv(DeletePosition(s, name).value.0)
  {
    hide Inv;
    ClaimKeepsInv(s, name);
    var s' := DeletePosition(s, name).value.0;
    assert s'.positions == s.positions - {name};
    EraseKeepsInv(s, s', name);
  }

  /** Every allowed call keeps the invariant and does not panic. */
  lemma StepKeepsInv(s: State, op: Op)
    requires Inv(s) && Allowed(s, op)
    ensures Inv(Step(s, op).state)
    ensures !Step(s, op).panicked
  {
    hide Inv, Resize, ClaimRewards, DeletePosition, TotalRewards;
    match op
    case Deposit(amt) => DepositKeepsInv(s, amt);
    case New(name, n) => WriteKeepsInv(s, NewPosition(s, name, n), name, Record(n, s.value, map[]));
    case AddTo(name, n) => if n > 0 && name in s.positions { InvRecord(s, name); ResizeKeepsInv(s, name, n); }
    case RemoveFrom(name, n) =>
      if n > 0 && name in s.positions && n <= s.positions[name].numShares { ResizeKeepsInv(s, name, -n); }
    case Change(name, n) =>
      if name in s.positions {
        if n != 0 && s.positions[name].numShares + n >= 0 { ResizeKeepsInv(s, name, n); } else { InvRecord(s, name); }
      }
    case Claim(name) => if name in s.positions { ClaimKeepsInv(s, name); } else { NoClaim(s, name); }
    case Close(name) => if name in s.positions { DeleteKeepsInv(s, name); } else { NoClaim(s, name); }
    case Grant(name, rewards) =>
      if name in s.positions && !AnyNegative(rewards) {
        InvRecord(s, name);
        var p := s.positions[name];
        GrantOK(s.value, p, rewards);
        WriteKeepsInv(s, Step(s, op).state, name, p.(unclaimed := Add(p.unclaimed, rewards)));
      }
  }

  lemma NoClaim(s: State, name: string)
    requires name !in s.positions
    ensures ClaimRewards(s, name) == Err(NoPosition) && DeletePosition(s, name) == Err(NoPosition)
  {
  }

  lemma GrantOK(value: Coins, p: Record, rewards: Coins)
    requires RecordOK(value, p) && !AnyNegative(rewards)
    ensures RecordOK(value, p.(unclaimed := Add(p.unclaimed, rewards)))
  {
    var u := Add(p.unclaimed, rewards);
    forall d | d in u ensures u[d] >= 0 {
      assert Amount(u, d) == Amount(p.unclaimed, d) + Amount(rewards, d);
    }
  }

  /** In every reachable state the shares add up and no position is ahead of the accumulator. */
  lemma {:induction false} RunKeepsInv(s: State, ops: seq<Op>)
    requires Inv(s) && AllowedRun(s, ops)
    ensures Inv(Run(s, ops))
    decreases |ops|
  {
    hide Inv, Step;
    if ops != [] {
      StepKeepsInv(s, ops[0]);
      RunKeepsInv(Step(s, ops[0]).state, ops[1..]);
    }
  }

  // ---- conservation, denom by denom, in units of 10^-36 ----

  /** What a position has earned, exactly: nothing is rounded before it settles. */
  ghost function Pending(value: Coins, p: Record, d: Denom): int {
    Amount(p.unclaimed, d) * ONE + (Amount(value, d) - Amount(p.start, d)) * p.numShares
  }

  ghost function PendingOf(s: State, d: Denom): map<string, int> {
    map n | n in s.positions :: Pending(s.value, s.positions[n], d)
  }

  ghost function TotalPending(s: State, d: Denom): int {
    Total(PendingOf(s, d))
  }

  /** What a call puts in: a deposit pays every share, a grant pays one position. */
  ghost function Funded(s: State, op: Op, d: Denom): int {
    match op
    case Deposit(amt) => s.total * Amount(amt, d)
    case Grant(_, rewards) => if Step(s, op).done then Amount(rewards, d) * ONE else 0
    case _ => 0
  }

  /** Whether a call settles a position, which is the only place where anything is rounded. */
  ghost predicate Settles(s: State, op: Op) {
    Step(s, op).done && (op.AddTo? || op.RemoveFrom? || op.Change? || op.Claim? || op.Close?)
  }

  /** Twice `x` is at most one unit of the last place, in absolute value. */
  predicate HalfUnit(x: int) {
    -ONE <= 2 * x <= ONE
  }

  /** Settling rounds by at most half a unit. */
  lemma SettleError(s: State, p: Record, d: Denom)
    requires TotalRewards(s, p).Ok?
    ensures HalfUnit(Amount(TotalRewards(s, p).value, d) * ONE - Pending(s.value, p, d))
  {
    hide ChopAndRound;
    var diff := Minus(s.value, p.start);
    if d in diff {
      RoundNearest(diff[d] * p.numShares, ONE);
      assert Amount(diff, d) == diff[d];
    } else {
      assert Amount(diff, d) == 0;
      assert (Amount(s.value, d) - Amount(p.start, d)) * p.numShares == 0;
    }
  }

  lemma WriteMoves(s: State, s': State, name: string, p: Record, d: Denom)
    requires s'.value == s.value && s'.positions == s.positions[name := p]
    ensures TotalPending(s', d) == TotalPending(s, d) + Pending(s.value, p, d)
              - (if name in s.positions then Pending(s.value, s.positions[name], d) else 0)
  {
    hide Pending, Total;
    assert PendingOf(s', d) == PendingOf(s, d)[name := Pending(s.value, p, d)];
    TotalUpdate(PendingOf(s, d), name, Pending(s.value, p, d));
  }

  lemma EraseMoves(s: State, s': State, name: string, d: Denom)
    requires name in s.positions
    requires s'.value == s.value && s'.positions == s.positions - {name}
    ensures TotalPending(s', d) == TotalPending(s, d) - Pending(s.value, s.positions[name], d)
  {
    hide Pending, Total;
    assert PendingOf(s', d) == PendingOf(s, d) - {name};
    TotalRemove(PendingOf(s, d), name);
  }

  /** A position that has just settled has exactly its settled rewards pending. */
  lemma SettledPending(value: Coins, n: int, u: Coins, d: Denom)
    ensures Pending(value, Record(n, value, u), d) == Amount(u, d) * ONE
  {
    assert (Amount(value, d) - Amount(value, d)) * n == 0;
  }

  lemma DepositPending(value: Coins, amt: Coins, p: Record, d: Denom)
    ensures Pending(Add(value, amt), p, d) == Pending(value, p, d) + Amount(amt, d) * p.numShares
  {
    var v, a, b, n := Amount(value, d), Amount(amt, d), Amount(p.start, d), p.numShares;
    assert Amount(Add(value, amt), d) == v + a;
    assert (v + a - b) * n == (v - b) * n + a * n;
  }

  /** A deposit reaches every share of every position. */
  lemma DepositMoves(s: State, amt: Coins, d: Denom)
    requires s.total == Total(Shares(s))
    ensures TotalPending(AddToAccumulator(s, amt), d) == TotalPending(s, d) + s.total * Amount(amt, d)
  {
    hide SumOver, Pending, Add;
    var s' := AddToAccumulator(s, amt);
    forall n | n in s.positions
      ensures PendingOf(s', d)[n] == PendingOf(s, d)[n] + Amount(amt, d) * Shares(s)[n]
    {
      DepositPending(s.value, amt, s.positions[n], d);
    }
    SumLinear(s.positions.Keys, PendingOf(s, d), Shares(s), Amount(amt, d), PendingOf(s', d));
    assert PendingOf(s, d).Keys == PendingOf(s', d).Keys == Shares(s).Keys == s.positions.Keys;
  }

  lemma ResizeConserves(s: State, name: string, n: int, d: Denom)
    requires name in s.positions && Resize(s, name, n).Ok?
    ensures HalfUnit(TotalPending(Resize(s, name, n).value, d) - TotalPending(s, d))
  {
    hide TotalRewards, TotalPending, Pending;
    var p := s.positions[name];
    var rewards := TotalRewards(s, p).value;
    SettleError(s, p, d);
    SettledPending(s.value, p.numShares + n, rewards, d);
    WriteMoves(s, Resize(s, name, n).value, name, Record(p.numShares + n, s.value, rewards), d);
  }

  /** A claim pays what it takes out of the pending rewards. */
  lemma ClaimConserves(s: State, name: string, d: Denom)
    requires name in s.positions && ClaimRewards(s, name).Ok?
    ensures
      var c := ClaimRewards(s, name).value;
      HalfUnit((Amount(c.whole, d) * ONE + Amount(c.dust, d)) * ONE + TotalPending(c.state, d) - TotalPending(s, d))
  {
    hide TotalRewards, TotalPending, Pending;
    var p := s.positions[name];
    var rewards := TotalRewards(s, p).value;
    var s' := ClaimRewards(s, name).value.state;
    SettleError(s, p, d);
    assert Amount(rewards, d) == Amount(Truncate(rewards).0, d) * ONE + Amount(Truncate(rewards).1, d);
    if p.numShares == 0 {
      EraseMoves(s, s', name, d);
    } else {
      SettledPending(s.value, p.numShares, map[], d);
      WriteMoves(s, s', name, Record(p.numShares, s.value, map[]), d);
    }
  }

  lemma DeleteConserves(s: State, name: string, d: Denom)
    requires name in s.positions && DeletePosition(s, name).Ok?
    ensures
      var (s', paid) := DeletePosition(s, name).value;
      HalfUnit(Amount(paid, d) * ONE + TotalPending(s', d) - TotalPending(s, d))
  {
    hide TotalRewards, TotalPending, Pending;
    var p := s.positions[name];
    var (s', paid) := DeletePosition(s, name).value;
    var c := ClaimRewards(s, name).value;
    SettleError(s, p, d);
    assert Amount(paid, d) == Amount(c.whole, d) * ONE + Amount(c.dust, d);
    assert s'.positions == s.positions - {name};
    EraseMoves(s, s', name, d);
  }

  /** The books after a call, up to half a unit if it settles. */
  ghost predicate Conserved(s: State, op: Op, d: Denom) {
    var e := Step(s, op);
    var gap := Amount(e.paid, d) * ONE + TotalPending(e.state, d) - TotalPending(s, d) - Funded(s, op, d);
    if Settles(s, op) then HalfUnit(gap) else gap == 0
  }

  lemma NewConserves(s: State, name: string, n: int, d: Denom)
    requires name !in s.positions
    ensures Conserved(s, New(name, n), d)
  {
    hide TotalPending, Pending;
    SettledPending(s.value, n, map[], d);
    WriteMoves(s, NewPosition(s, name, n), name, Record(n, s.value, map[]), d);
  }

  lemma GrantConserves(s: State, name: string, rewards: Coins, d: Denom)
    ensures Conserved(s, Grant(name, rewards), d)
  {
    hide TotalPending, Pending, Add;
    if Step(s, Grant(name, rewards)).done {
      var p := s.positions[name];
      WriteMoves(s, Step(s, Grant(name, rewards)).state, name, p.(unclaimed := Add(p.unclaimed, rewards)), d);
      GrantPending(s.value, p, rewards, d);
    }
  }

  lemma ChangeConserves(s: State, op: Op, d: Denom)
    requires op.AddTo? || op.RemoveFrom? || op.Change?
    ensures Conserved(s, op, d)
  {
    hide TotalPending, Resize;
    if Settles(s, op) {
      ResizeConserves(s, op.name, if op.RemoveFrom? then -op.n else op.n, d);
    }
  }

  lemma PayoutConserves(s: State, op: Op, d: Denom)
    requires op.Claim? || op.Close?
    ensures Conserved(s, op, d)
  {
    hide TotalPending, ClaimRewards, DeletePosition, Add, FromWhole;
    ClaimFails(s, op.name);
    if Settles(s, op) {
      if op.Claim? {
        ClaimConserves(s, op.name, d);
      } else {
        DeleteConserves(s, op.name, d);
      }
    }
  }

  /** Each call moves money without loss, up to half a unit if it settles. */
  lemma StepConserves(s: State, op: Op, d: Denom)
    requires Inv(s) && Allowed(s, op)
    ensures Conserved(s, op, d)
  {
    match op
    case Deposit(amt) =>
      hide TotalPending;
      DepositMoves(s, amt, d);
    case New(name, n) => NewConserves(s, name, n, d);
    case Grant(name, rewards) => GrantConserves(s, name, rewards, d);
    case AddTo(_, _) => ChangeConserves(s, op, d);
    case RemoveFrom(_, _) => ChangeConserves(s, op, d);
    case Change(_, _) => ChangeConserves(s, op, d);
    case Claim(_) => PayoutConserves(s, op, d);
    case Close(_) => PayoutConserves(s, op, d);
  }

  lemma ClaimFails(s: State, name: string)
    ensures name !in s.positions ==> !ClaimRewards(s, name).Ok? && !DeletePosition(s, name).Ok?
  {
  }

  lemma GrantPending(value: Coins, p: Record, rewards: Coins, d: Denom)
    ensures Pending(value, p.(unclaimed := Add(p.unclaimed, rewards)), d) == Pending(value, p, d) + Amount(rewards, d) * ONE
  {
    assert Amount(Add(p.unclaimed, rewards), d) == Amount(p.unclaimed, d) + Amount(rewards, d);
  }

  // ---- whole runs ----

  ghost function Paid(s: State, ops: seq<Op>, d: Denom): int
    decreases |ops|
  {
    if ops == [] then 0 else Amount(Step(s, ops[0]).paid, d) + Paid(Step(s, ops[0]).state, ops[1..], d)
  }

  ghost function AllFunded(s: State, ops: seq<Op>, d: Denom): int
    decreases |ops|
  {
    if ops == [] then 0 else Funded(s, ops[0], d) + AllFunded(Step(s, ops[0]).state, ops[1..], d)
  }

  ghost function Settlements(s: State, ops: seq<Op>): nat
    decreases |ops|
  {
    if ops == [] then 0 else (if Settles(s, ops[0]) then 1 else 0) + Settlements(Step(s, ops[0]).state, ops[1..])
  }

  lemma {:induction false} RunGap(s: State, ops: seq<Op>, d: Denom)
    requires Inv(s) && AllowedRun(s, ops)
    ensures
      var gap := Paid(s, ops, d) * ONE + TotalPending(Run(s, ops), d) - TotalPending(s, d) - AllFunded(s, ops, d);
      -ONE * Settlements(s, ops) <= 2 * gap <= ONE * Settlements(s, ops)
    decreases |ops|
  {
    hide Inv, Step, TotalPending, Funded, Settles;
    if ops != [] {
      StepKeepsInv(s, ops[0]);
      StepConserves(s, ops[0], d);
      RunGap(Step(s, ops[0]).state, ops[1..], d);
    }
  }

  /**
   Over any allowed run from an empty accumulator: what was paid, plus what is exactly pending,
   differs from what was put in by at most half a unit of 10^-18 for each settlement.
   */
  lemma RunConserves(ops: seq<Op>, d: Denom)
    requires AllowedRun(INIT, ops)
    ensures
      var gap := Paid(INIT, ops, d) * ONE + TotalPending(Run(INIT, ops), d) - AllFunded(INIT, ops, d);
      -ONE * Settlements(INIT, ops) <= 2 * gap <= ONE * Settlements(INIT, ops)
  {
    hide Inv, Step, Funded, Settles, Run, Paid, AllFunded, Settlements;
    InitInv();
    RunGap(INIT, ops, d);
    assert PendingOf(INIT, d) == map[];
  }

  // ---- what single calls mean for a position ----

  /** A resize does not change what the position could claim. */
  lemma ResizeKeepsRewards(s: State, name: string, n: int)
    requires Inv(s) && name in s.positions && s.positions[name].numShares + n >= 0
    ensures
      var s' := Resize(s, name, n).value;
      && Resize(s, name, n).Ok?
      && TotalRewards(s', s'.positions[name]) == TotalRewards(s, s.positions[name])
      && forall x | x in s.positions && x != name :: s'.positions[x] == s.positions[x]
  {
    hide Inv, MulDec;
    var p := s.positions[name];
    InvRecord(s, name);
    RewardsDefined(s, p);
    var rewards := TotalRewards(s, p).value;
    var diff := Minus(s.value, s.value);
    SameAmounts(diff, map[]);
    assert MulDec(diff, p.numShares + n) == map[] by { MulNothing(p.numShares + n); }
    SameAmounts(Add(rewards, map[]), rewards);
  }

  lemma MulNothing(n: int)
    ensures MulDec(map[], n) == map[]
  {
  }

  /**
   Adding shares is closing the position and opening it again with all the shares, where the
   pay-out of the closing becomes the position's unclaimed rewards.
   */
  lemma AddIsCloseAndReopen(s: State, name: string, n: int)
    requires Inv(s) && name in s.positions && n > 0
    ensures AddToPosition(s, name, n).Ok? && DeletePosition(s, name).Ok?
    ensures
      var added := AddToPosition(s, name, n).value;
      var (closed, paid) := DeletePosition(s, name).value;
      var reopened := NewPosition(closed, name, s.positions[name].numShares + n);
      && added.value == reopened.value && added.total == reopened.total
      && added.positions == reopened.positions[name := reopened.positions[name].(unclaimed := paid)]
  {
    hide Inv, TotalRewards;
    var p := s.positions[name];
    InvRecord(s, name);
    RewardsDefined(s, p);
    TruncateBack(TotalRewards(s, p).value);
    var (closed, paid) := DeletePosition(s, name).value;
    assert closed.positions == s.positions - {name};
  }

  /** Opening a position over an existing one forgets the old shares, so the shares still add up only if there were none. */
  lemma OverwriteIff(s: State, name: string, n: int)
    requires Inv(s) && n >= 0
    ensures Inv(NewPosition(s, name, n)) <==> name !in s.positions || s.positions[name].numShares == 0
  {
    hide Total;
    var s' := NewPosition(s, name, n);
    SharesUpdate(s, s', name, Record(n, s.value, map[]));
  }
}
