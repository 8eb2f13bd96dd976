/**
 The accumulator in its key-value store: a handle that caches the accumulator's content, and
 position records under formatted keys. Each method is proved against the state machine of
 module Accum, and leaves other accumulators alone.
 */
module AccumStore {
  import opened Options
  import opened DecCoins
  import opened AccumKeys
  import opened Accum

  datatype Entry = Content(value: Coins, total: int) | Position(record: Record)

  type Entries = map<string, Entry>

  /** Every key holds the kind of entry that its prefix says, and the names of accumulators have passed their check. */
  ghost predicate WellKeyed(entries: Entries) {
    && (forall a | AccumKey(a) in entries :: entries[AccumKey(a)].Content? && !ContainsSeparator(a))
    && (forall a, n | PositionKey(a, n) in entries :: entries[PositionKey(a, n)].Position?)
  }

  ghost function NamesIn(entries: Entries, a: string): set<string> {
    set k | k in entries && PositionPrefix(a) <= k :: k[|PositionPrefix(a)|..]
  }

  lemma NamesInIff(entries: Entries, a: string, n: string)
    ensures n in NamesIn(entries, a) <==> PositionKey(a, n) in entries
  {
    var p := PositionPrefix(a);
    assert (p + n)[|p|..] == n;
    forall k | k in entries && p <= k && k[|p|..] == n ensures k == p + n {
      assert k == k[..|p|] + k[|p|..];
    }
  }

  /** The positions of one accumulator, by name. */
  ghost function PositionsIn(entries: Entries, a: string): (r: map<string, Record>)
    requires WellKeyed(entries)
    ensures forall n :: n in r <==> PositionKey(a, n) in entries
    ensures forall n | n in r :: r[n] == entries[PositionKey(a, n)].record
  {
    assert forall n :: n in NamesIn(entries, a) <==> PositionKey(a, n) in entries by {
      forall n { NamesInIff(entries, a, n); }
    }
    map n | n in NamesIn(entries, a) :: entries[PositionKey(a, n)].record
  }

  /** The state machine's view of one accumulator. */
  ghost function View(entries: Entries, a: string): State
    requires WellKeyed(entries) && AccumKey(a) in entries
  {
    State(entries[AccumKey(a)].value, entries[AccumKey(a)].total, PositionsIn(entries, a))
  }

  /** What accumulator `b` looks like did not change. */
  ghost predicate Untouched(before: Entries, after: Entries, b: string) {
    WellKeyed(before) && WellKeyed(after) ==>
      && (AccumKey(b) in before <==> AccumKey(b) in after)
      && (AccumKey(b) in before ==> View(before, b) == View(after, b))
  }

  /** Accumulators whose keys cannot clash with those of `a` did not change. */
  ghost predicate OthersKept(before: Entries, after: Entries, a: string) {
    forall b | !ContainsSeparator(b) && b != a && !Neighbours(a, b) :: Untouched(before, after, b)
  }

  lemma OthersRefl(x: Entries, a: string)
    ensures OthersKept(x, x, a)
  {
  }

  lemma OthersTrans(x: Entries, y: Entries, z: Entries, a: string)
    requires WellKeyed(x) && WellKeyed(y) && WellKeyed(z)
    requires OthersKept(x, y, a) && OthersKept(y, z, a)
    ensures OthersKept(x, z, a)
  {
    forall b | !ContainsSeparator(b) && b != a && !Neighbours(a, b) ensures Untouched(x, z, b) {
      assert Untouched(x, y, b) && Untouched(y, z, b);
    }
  }

  lemma AccumKeyInjective(a: string, b: string)
    ensures AccumKey(a) == AccumKey(b) ==> a == b
  {
    assert AccumKey(a)[|ACCUM_PREFIX|..] == a && AccumKey(b)[|ACCUM_PREFIX|..] == b;
  }

  lemma PositionKeyInjective(a: string, n: string, k: string)
    ensures PositionKey(a, n) == PositionKey(a, k) ==> n == k
  {
    var p := PositionPrefix(a);
    assert (p + n)[|p|..] == n && (p + k)[|p|..] == k;
  }

  lemma PutContent(entries: Entries, a: string, value: Coins, total: int)
    requires WellKeyed(entries) && !ContainsSeparator(a)
    ensures
      var entries' := entries[AccumKey(a) := Content(value, total)];
      && WellKeyed(entries')
      && View(entries', a) == State(value, total, PositionsIn(entries, a))
      && OthersKept(entries, entries', a)
  {
    hide ContainsSeparator, AccumKey, PositionKey, Neighbours;
    var entries' := entries[AccumKey(a) := Content(value, total)];
    forall b, n ensures AccumKey(a) != PositionKey(b, n) { KindsApart(a, b, n); }
    forall b ensures AccumKey(a) == AccumKey(b) ==> a == b { AccumKeyInjective(a, b); }
    assert WellKeyed(entries');
    forall b ensures PositionsIn(entries', b) == PositionsIn(entries, b) {}
    forall b | b != a ensures Untouched(entries, entries', b) {}
  }

  /** The two stores differ at one key at most. */
  ghost predicate SameExcept(before: Entries, after: Entries, key: string) {
    forall k | k != key :: (k in before <==> k in after) && (k in before ==> before[k] == after[k])
  }

  lemma OtherUntouched(before: Entries, after: Entries, a: string, name: string, b: string)
    requires WellKeyed(before) && WellKeyed(after)
    requires SameExcept(before, after, PositionKey(a, name))
    requires !ContainsSeparator(a) && !ContainsSeparator(b) && b != a && !Neighbours(a, b)
    ensures Untouched(before, after, b)
  {
    hide AccumKey, PositionKey, WellKeyed, ContainsSeparator;
    KindsApart(b, a, name);
    forall n ensures PositionKey(b, n) != PositionKey(a, name) { PositionKeyClash(b, n, a, name); }
    assert PositionsIn(after, b) == PositionsIn(before, b);
  }

  lemma StaysWellKeyed(before: Entries, after: Entries, a: string, name: string)
    requires WellKeyed(before) && SameExcept(before, after, PositionKey(a, name))
    requires PositionKey(a, name) in after ==> after[PositionKey(a, name)].Position?
    ensures WellKeyed(after)
    ensures forall b :: AccumKey(b) in after <==> AccumKey(b) in before
    ensures forall b | AccumKey(b) in before :: after[AccumKey(b)] == before[AccumKey(b)]
  {
    hide AccumKey, PositionKey;
    forall b ensures AccumKey(b) != PositionKey(a, name) { KindsApart(b, a, name); }
  }

  lemma SamePositions(before: Entries, after: Entries, a: string, name: string)
    requires WellKeyed(before) && WellKeyed(after) && SameExcept(before, after, PositionKey(a, name))
    ensures PositionsIn(after, a) - {name} == PositionsIn(before, a) - {name}
  {
    hide AccumKey, PositionKey, WellKeyed;
    forall n | n != name ensures PositionKey(a, n) != PositionKey(a, name) { PositionKeyInjective(a, n, name); }
  }

  /** Writing or deleting one position changes that position and nothing else that can be seen. */
  lemma PositionChanged(before: Entries, after: Entries, a: string, name: string)
    requires WellKeyed(before) && SameExcept(before, after, PositionKey(a, name))
    requires PositionKey(a, name) in after ==> after[PositionKey(a, name)].Position?
    requires !ContainsSeparator(a)
    ensures WellKeyed(after)
    ensures PositionsIn(after, a) - {name} == PositionsIn(before, a) - {name}
    ensures forall b :: AccumKey(b) in after <==> AccumKey(b) in before
    ensures forall b | AccumKey(b) in before :: after[AccumKey(b)] == before[AccumKey(b)]
    ensures OthersKept(before, after, a)
  {
    hide AccumKey, PositionKey, ContainsSeparator, Untouched, WellKeyed, SameExcept;
    StaysWellKeyed(before, after, a, name);
    SamePositions(before, after, a, name);
    forall b | !ContainsSeparator(b) && b != a && !Neighbours(a, b) ensures Untouched(before, after, b) {
      OtherUntouched(before, after, a, name, b);
    }
  }

  lemma PutPosition(entries: Entries, a: string, name: string, r: Record)
    requires WellKeyed(entries) && !ContainsSeparator(a)
    ensures
      var entries' := entries[PositionKey(a, name) := Position(r)];
      && WellKeyed(entries')
      && PositionsIn(entries', a) == PositionsIn(entries, a)[name := r]
      && (forall b :: AccumKey(b) in entries' <==> AccumKey(b) in entries)
      && (forall b | AccumKey(b) in entries :: entries'[AccumKey(b)] == entries[AccumKey(b)])
      && OthersKept(entries, entries', a)
  {
    hide AccumKey, PositionKey, WellKeyed, OthersKept;
    var entries' := entries[PositionKey(a, name) := Position(r)];
    PositionChanged(entries, entries', a, name);
    ExtendMap(PositionsIn(entries, a), PositionsIn(entries', a), name);
  }

  lemma ExtendMap(m: map<string, Record>, m': map<string, Record>, k: string)
    requires m - {k} == m' - {k} && k in m'
    ensures m' == m[k := m'[k]]
  {
    forall x | x in m' && x != k ensures x in m && m[x] == m'[x] {
      assert x in m' - {k} && (m' - {k})[x] == m'[x];
      assert x in m - {k} && (m - {k})[x] == m[x];
    }
    forall x | x in m && x != k ensures x in m' {
      assert x in m - {k};
    }
  }

  lemma DropPosition(entries: Entries, a: string, name: string)
    requires WellKeyed(entries) && !ContainsSeparator(a)
    ensures
      var entries' := entries - {PositionKey(a, name)};
      && WellKeyed(entries')
      && PositionsIn(entries', a) == PositionsIn(entries, a) - {name}
      && (forall b :: AccumKey(b) in entries' <==> AccumKey(b) in entries)
      && (forall b | AccumKey(b) in entries :: entries'[AccumKey(b)] == entries[AccumKey(b)])
      && OthersKept(entries, entries', a)
  {
    hide AccumKey, PositionKey, WellKeyed, OthersKept;
    var entries' := entries - {PositionKey(a, name)};
    PositionChanged(entries, entries', a, name);
    assert name !in PositionsIn(entries', a);
    assert PositionsIn(entries', a) - {name} == PositionsIn(entries', a);
  }

  /** The shared store. */
  class Store {
    var entries: Entries
  }

  /** `AccumulatorObject`: a handle on one accumulator, with its content cached. */
  class Handle {
    const store: Store
    const name: string
    var valuePerShare: Coins
    var totalShares: int

    /** The store is well keyed, and the cache agrees with it. */
    ghost predicate Valid()
      reads this, store
    {
      && WellKeyed(store.entries) && !ContainsSeparator(name)
      && AccumKey(name) in store.entries
      && store.entries[AccumKey(name)] == Content(valuePerShare, totalShares)
    }

    /** `GetAccumulator`, on an accumulator that exists. */
    constructor (store: Store, name: string)
      requires WellKeyed(store.entries) && AccumKey(name) in store.entries
      ensures Valid() && this.store == store && this.name == name
    {
      this.store := store;
      this.name := name;
      valuePerShare := store.entries[AccumKey(name)].value;
      totalShares := store.entries[AccumKey(name)].total;
    }

    /** `GetAccumulator`: a handle, or nothing for the error on an accumulator that does not exist. */
    static method Open(store: Store, name: string) returns (h: Option<Handle>)
      requires WellKeyed(store.entries)
      ensures h.Some? <==> AccumKey(name) in store.entries
      ensures h.Some? ==> fresh(h.value) && h.value.store == store && h.value.name == name
      ensures h.Some? ==> h.value.Valid() && h.value.TheState() == View(store.entries, name)
    {
      hide WellKeyed, AccumKey, ContainsSeparator, PositionsIn;
      if AccumKey(name) !in store.entries {
        return None;
      }
      var handle := new Handle(store, name);
      return Some(handle);
    }

    /** `MakeAccumulator`: fails on a name that is taken or contains the separator. */
    static method Make(store: Store, name: string) returns (ok: bool)
      requires WellKeyed(store.entries)
      modifies store
      ensures WellKeyed(store.entries)
      ensures ok <==> old(AccumKey(name) !in store.entries) && !ContainsSeparator(name)
      ensures !ok ==> store.entries == old(store.entries)
      ensures ok ==> AccumKey(name) in store.entries
      ensures ok ==> View(store.entries, name) == State(map[], 0, PositionsIn(old(store.entries), name))
      ensures OthersKept(old(store.entries), store.entries, name)
    {
      hide PositionKey, ContainsSeparator, OthersKept;
      if AccumKey(name) in store.entries || ContainsSeparator(name) {
        OthersRefl(store.entries, name);
        return false;
      }
      PutContent(store.entries, name, map[], 0);
      store.entries := store.entries[AccumKey(name) := Content(map[], 0)];
      return true;
    }

    ghost function TheState(): State
      reads this, store
      requires Valid()
    {
      View(store.entries, name)
    }

    /** `GetPosition` */
    method GetPosition(position: string) returns (r: Outcome<Record>)
      requires Valid()
      ensures r == if position in TheState().positions then Ok(TheState().positions[position]) else Err(NoPosition)
    {
      hide AccumKey, PositionKey;
      if PositionKey(name, position) !in store.entries {
        return Err(NoPosition);
      }
      r := Ok(store.entries[PositionKey(name, position)].record);
    }

    /** `initOrUpdatePosition` */
    method InitOrUpdatePosition(value: Coins, position: string, shares: int, unclaimed: Coins)
      requires Valid()
      modifies store
      ensures Valid()
      ensures TheState() == old(TheState()).(positions := old(TheState()).positions[position := Record(shares, value, unclaimed)])
      ensures OthersKept(old(store.entries), store.entries, name)
    {
      hide AccumKey, PositionKey, WellKeyed, OthersKept;
      PutPosition(store.entries, name, position, Record(shares, value, unclaimed));
      store.entries := store.entries[PositionKey(name, position) := Position(Record(shares, value, unclaimed))];
    }

    /** `setAccumulator`, on a name that has passed its check. */
    method SetAccumulator()
      requires WellKeyed(store.entries) && !ContainsSeparator(name)
      modifies store
      ensures Valid()
      ensures TheState() == State(valuePerShare, totalShares, PositionsIn(old(store.entries), name))
      ensures OthersKept(old(store.entries), store.entries, name)
    {
      hide AccumKey, PositionKey, WellKeyed, OthersKept;
      PutContent(store.entries, name, valuePerShare, totalShares);
      store.entries := store.entries[AccumKey(name) := Content(valuePerShare, totalShares)];
    }

    /** `AddToAccumulator` */
    method AddToAccumulator(amt: Coins)
      requires Valid()
      modifies this, store
      ensures Valid()
      ensures TheState() == Accum.AddToAccumulator(old(TheState()), amt)
      ensures OthersKept(old(store.entries), store.entries, name)
    {
      hide AccumKey, PositionKey, WellKeyed, OthersKept;
      valuePerShare := Add(valuePerShare, amt);
      SetAccumulator();
    }

    /** The common end of the operations on shares: the stored total is read again and moved by `n`. */
    method MoveTotal(n: int)
      requires Valid()
      modifies this, store
      ensures Valid()
      ensures TheState() == old(TheState()).(total := old(TheState()).total + n)
      ensures OthersKept(old(store.entries), store.entries, name)
    {
      hide PositionKey, OthersKept;
      totalShares := store.entries[AccumKey(name)].total + n;
      SetAccumulator();
    }

    /** `NewPosition` */
    method NewPosition(position: string, n: int)
      requires Valid()
      modifies this, store
      ensures Valid()
      ensures TheState() == Accum.NewPosition(old(TheState()), position, n)
      ensures OthersKept(old(store.entries), store.entries, name)
    {
      hide AccumKey, PositionKey, OthersKept, Untouched;
      InitOrUpdatePosition(valuePerShare, position, n, map[]);
      label Written:
      MoveTotal(n);
      OthersTrans(old(store.entries), old@Written(store.entries), store.entries, name);
    }

    /** `GetTotalRewards`: `Panic` for a value below the position's start. */
    method GetTotalRewards(p: Record) returns (r: Outcome<Coins>)
      requires Valid()
      ensures r == TotalRewards(TheState(), p)
    {
      hide AccumKey, PositionKey;
      var diff := Minus(valuePerShare, p.start);
      if AnyNegative(diff) {
        return Panic;
      }
      r := Ok(Add(p.unclaimed, MulDec(diff, p.numShares)));
    }

    /** A call reports success, each error and a panic just as the state machine does. */
    ghost predicate SameKind(r: Outcome<()>, o: Outcome<State>) {
      match o
      case Ok(_) => r.Ok?
      case Err(e) => r == Err(e)
      case Panic => r.Panic?
    }

    /** The state after a call that either succeeds or writes nothing. */
    ghost function After(before: State, o: Outcome<State>): State {
      if o.Ok? then o.value else before
    }

    /** The common part of adding and removing shares, once the arguments are checked. */
    method Resize(position: string, p: Record, n: int) returns (r: Outcome<()>)
      requires Valid() && position in TheState().positions && TheState().positions[position] == p
      modifies this, store
      ensures Valid()
      ensures SameKind(r, Accum.Resize(old(TheState()), position, n))
      ensures TheState() == After(old(TheState()), Accum.Resize(old(TheState()), position, n))
      ensures OthersKept(old(store.entries), store.entries, name)
    {
      hide AccumKey, PositionKey, OthersKept, Untouched, TotalRewards, WellKeyed, PositionsIn, ContainsSeparator;
      var rewards := GetTotalRewards(p);
      if !rewards.Ok? {
        OthersRefl(store.entries, name);
        return if rewards.Panic? then Panic else Err(rewards.error);
      }
      InitOrUpdatePosition(valuePerShare, position, p.numShares + n, rewards.value);
      label Written:
      MoveTotal(n);
      OthersTrans(old(store.entries), old@Written(store.entries), store.entries, name);
      return Ok(());
    }

    /** `AddToPosition` */
    method AddToPosition(position: string, n: int) returns (r: Outcome<()>)
      requires Valid()
      modifies this, store
      ensures Valid()
      ensures SameKind(r, Accum.AddToPosition(old(TheState()), position, n))
      ensures TheState() == After(old(TheState()), Accum.AddToPosition(old(TheState()), position, n))
      ensures OthersKept(old(store.entries), store.entries, name)
    {
      hide AccumKey, PositionKey, OthersKept, WellKeyed, Accum.Resize;
      OthersRefl(store.entries, name);
      if n <= 0 {
        return Err(NonPositiveShares);
      }
      var p := GetPosition(position);
      if !p.Ok? {
        return Err(NoPosition);
      }
      r := Resize(position, p.value, n);
    }

    /** `RemoveFromPosition` */
    method RemoveFromPosition(position: string, n: int) returns (r: Outcome<()>)
      requires Valid()
      modifies this, store
      ensures Valid()
      ensures SameKind(r, Accum.RemoveFromPosition(old(TheState()), position, n))
      ensures TheState() == After(old(TheState()), Accum.RemoveFromPosition(old(TheState()), position, n))
      ensures OthersKept(old(store.entries), store.entries, name)
    {
      hide AccumKey, PositionKey, OthersKept, WellKeyed, Accum.Resize;
      OthersRefl(store.entries, name);
      if n <= 0 {
        return Err(NonPositiveShares);
      }
      var p := GetPosition(position);
      if !p.Ok? {
        return Err(NoPosition);
      }
      if n > p.value.numShares {
        return Err(TooManyShares);
      }
      r := Resize(position, p.value, -n);
    }

    /** `UpdatePosition` */
    method UpdatePosition(position: string, n: int) returns (r: Outcome<()>)
      requires Valid()
      modifies this, store
      ensures Valid()
      ensures SameKind(r, Accum.UpdatePosition(old(TheState()), position, n))
      ensures TheState() == After(old(TheState()), Accum.UpdatePosition(old(TheState()), position, n))
      ensures OthersKept(old(store.entries), store.entries, name)
    {
      hide AccumKey, PositionKey, OthersKept, WellKeyed, Accum.AddToPosition, Accum.RemoveFromPosition;
      if n == 0 {
        OthersRefl(store.entries, name);
        return Err(ZeroShares);
      }
      if n < 0 {
        r := RemoveFromPosition(position, -n);
      } else {
        r := AddToPosition(position, n);
      }
    }

    /** `ClaimRewards`: whole coins and dust. */
    method ClaimRewards(position: string) returns (r: Outcome<(map<Denom, int>, Coins)>)
      requires Valid()
      modifies store
      ensures Valid()
      ensures
        match Accum.ClaimRewards(old(TheState()), position)
        case Ok(c) => r == Ok((c.whole, c.dust)) && TheState() == c.state
        case Err(e) => r == Err(e) && TheState() == old(TheState())
        case Panic => r == Panic && TheState() == old(TheState())
      ensures OthersKept(old(store.entries), store.entries, name)
    {
      hide AccumKey, PositionKey, OthersKept, WellKeyed, TotalRewards, Truncate, AnyNegative;
      OthersRefl(store.entries, name);
      var p := GetPosition(position);
      if !p.Ok? {
        return Err(NoPosition);
      }
      var rewards := GetTotalRewards(p.value);
      if !rewards.Ok? {
        return if rewards.Panic? then Panic else Err(rewards.error);
      }
      if AnyNegative(rewards.value) {
        return Panic;
      }
      if p.value.numShares == 0 {
        DropPosition(store.entries, name, position);
        store.entries := store.entries - {PositionKey(name, position)};
      } else {
        InitOrUpdatePosition(valuePerShare, position, p.value.numShares, map[]);
      }
      return Ok(Truncate(rewards.value));
    }

    /** `DeletePosition` */
    method DeletePosition(position: string) returns (r: Outcome<Coins>)
      requires Valid()
      modifies this, store
      ensures Valid()
      ensures
        match Accum.DeletePosition(old(TheState()), position)
        case Ok((s, paid)) => r == Ok(paid) && TheState() == s
        case Err(e) => r == Err(e) && TheState() == old(TheState())
        case Panic => r == Panic && TheState() == old(TheState())
      ensures OthersKept(old(store.entries), store.entries, name)
    {
      hide AccumKey, PositionKey, OthersKept, WellKeyed, Accum.ClaimRewards, Add, FromWhole;
      OthersRefl(store.entries, name);
      var p := GetPosition(position);
      if !p.Ok? {
        return Err(NoPosition);
      }
      var c := ClaimRewards(position);
      if !c.Ok? {
        return if c.Panic? then Panic else Err(c.error);
      }
      label Claimed:
      DropPosition(store.entries, name, position);
      store.entries := store.entries - {PositionKey(name, position)};
      label Dropped:
      OthersTrans(old(store.entries), old@Claimed(store.entries), store.entries, name);
      totalShares := totalShares - p.value.numShares;
      SetAccumulator();
      OthersTrans(old(store.entries), old@Dropped(store.entries), store.entries, name);
      return Ok(Add(FromWhole(c.value.0), c.value.1));
    }

    /** `AddToUnclaimedRewards` */
    method AddToUnclaimedRewards(position: string, rewards: Coins) returns (r: Outcome<()>)
      requires Valid()
      modifies store
      ensures Valid()
      ensures SameKind(r, Accum.AddToUnclaimedRewards(old(TheState()), position, rewards))
      ensures TheState() == After(old(TheState()), Accum.AddToUnclaimedRewards(old(TheState()), position, rewards))
      ensures OthersKept(old(store.entries), store.entries, name)
    {
      hide AccumKey, PositionKey, OthersKept, WellKeyed, AnyNegative, Add;
      OthersRefl(store.entries, name);
      var p := GetPosition(position);
      if !p.Ok? {
        return Err(NoPosition);
      }
      if AnyNegative(rewards) {
        return Err(NegativeRewards);
      }
      InitOrUpdatePosition(p.value.start, position, p.value.numShares, Add(p.value.unclaimed, rewards));
      return Ok(());
    }
  }
}
