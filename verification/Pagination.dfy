/** Paging through account balances, by offset first and by key afterwards. */
module Pagination {
  import opened Options

  datatype Coin = Coin(denom: string, amount: int)

  /** The unsigned 64-bit integers wrap around here. */
  const WRAP: nat := 0x1_0000_0000_0000_0000
  const DEFAULT_LIMIT: nat := 100

  datatype PageRequest = PageRequest(key: Option<string>, offset: nat, limit: nat, countTotal: bool, reverse: bool)

  datatype PageError = ReverseNotEnabled | BothOffsetAndKey

  /** What was accumulated, where to go on, and the number of hits if it was asked for. */
  datatype Page = Page(coins: seq<Coin>, nextKey: Option<string>, total: nat)

  datatype Response = Ok(page: Page) | Err(error: PageError)

  /** The coins that the filter accepts, in order. */
  function Hits(coins: seq<Coin>, hit: Coin -> bool): seq<Coin> {
    if coins == [] then [] else
      var n := |coins| - 1;
      Hits(coins[..n], hit) + if hit(coins[n]) then [coins[n]] else []
  }

  lemma {:induction false} HitsConcat(a: seq<Coin>, b: seq<Coin>, hit: Coin -> bool)
    ensures Hits(a + b, hit) == Hits(a, hit) + Hits(b, hit)
  {
    if b == [] {
      assert a + b == a;
    } else {
      var n := |b| - 1;
      HitsConcat(a, b[..n], hit);
      assert (a + b)[..|a + b| - 1] == a + b[..n];
    }
  }

  lemma HitsNext(coins: seq<Coin>, hit: Coin -> bool, i: nat)
    requires i < |coins|
    ensures Hits(coins[..i + 1], hit) == if hit(coins[i]) then Hits(coins[..i], hit) + [coins[i]] else Hits(coins[..i], hit)
  {
    assert coins[..i + 1][..i] == coins[..i];
  }

  lemma {:induction false} HitsCount(coins: seq<Coin>, hit: Coin -> bool)
    ensures |Hits(coins, hit)| <= |coins|
  {
    if coins != [] { HitsCount(coins[..|coins| - 1], hit); }
  }

  // ---- paging by key ----

  function IndexOf(coins: seq<Coin>, key: string): nat {
    if coins == [] then 0 else if coins[0].denom == key then 0 else 1 + IndexOf(coins[1..], key)
  }

  /** How many coins it takes to see `limit` hits. */
  function Consumed(coins: seq<Coin>, hit: Coin -> bool, limit: nat): (c: nat)
    ensures c <= |coins|
  {
    if coins == [] || limit == 0 then 0
    else 1 + Consumed(coins[1..], hit, if hit(coins[0]) then limit - 1 else limit)
  }

  /** The page that starts at index `s`. */
  ghost function KeyPageAt(coins: seq<Coin>, hit: Coin -> bool, s: nat, limit: nat): Page
    requires s <= |coins|
  {
    var e := s + Consumed(coins[s..], hit, limit);
    Page(Hits(coins[s..e], hit), if e < |coins| then Some(coins[e].denom) else None, 0)
  }

  lemma {:induction false} IndexOfFirst(coins: seq<Coin>, key: string)
    ensures IndexOf(coins, key) <= |coins|
    ensures forall j | 0 <= j < IndexOf(coins, key) :: coins[j].denom != key
    ensures IndexOf(coins, key) < |coins| ==> coins[IndexOf(coins, key)].denom == key
  {
    if coins != [] {
      IndexOfFirst(coins[1..], key);
    }
  }

  lemma ConsumedNext(coins: seq<Coin>, hit: Coin -> bool, i: nat, limit: nat)
    requires i < |coins| && limit > 0
    ensures Consumed(coins[i..], hit, limit) == 1 + Consumed(coins[i + 1..], hit, if hit(coins[i]) then limit - 1 else limit)
  {
    assert coins[i..][1..] == coins[i + 1..];
  }

  lemma HitsSlice(coins: seq<Coin>, hit: Coin -> bool, s: nat, i: nat)
    requires s <= i < |coins|
    ensures Hits(coins[s..i + 1], hit) == if hit(coins[i]) then Hits(coins[s..i], hit) + [coins[i]] else Hits(coins[s..i], hit)
  {
    assert coins[s..i + 1][..i - s] == coins[s..i];
  }

  /** The key arm of `FilteredPaginateAccountBalances`. */
  method KeyPage(coins: seq<Coin>, hit: Coin -> bool, key: string, limit: nat) returns (page: Page)
    requires limit >= 1
    ensures IndexOf(coins, key) <= |coins|
    ensures page == KeyPageAt(coins, hit, IndexOf(coins, key), limit)
  {
    hide Hits, Consumed, IndexOf;
    IndexOfFirst(coins, key);
    ghost var s := IndexOf(coins, key);
    var numHits, startAccum, found := 0, false, [];
    assert Hits(coins[s..s], hit) == [] by { NoHits(hit); assert coins[s..s] == []; }
    var i := 0;
    while i < |coins|
      invariant 0 <= i <= |coins|
      invariant startAccum <==> i > s
      invariant i <= s ==> numHits == 0 && found == []
      invariant i > s ==> found == Hits(coins[s..i], hit) && numHits == |found| <= limit
      invariant i > s ==> Consumed(coins[s..], hit, limit) == i - s + Consumed(coins[i..], hit, limit - numHits)
    {
      if coins[i].denom == key {
        startAccum := true;
      }
      if numHits == limit {
        ConsumedNone(coins[i..], hit);
        return Page(found, Some(coins[i].denom), 0);
      }
      if startAccum {
        ConsumedNext(coins, hit, i, limit - numHits);
        HitsSlice(coins, hit, s, i);
        if hit(coins[i]) {
          found := found + [coins[i]];
          numHits := numHits + 1;
        }
      }
      i := i + 1;
    }
    ConsumedEnd(coins, hit, limit - numHits);
    if s < |coins| {
      assert coins[s..|coins|] == coins[s..];
    } else {
      ConsumedEnd(coins, hit, limit);
      assert coins[s..] == coins[s..s];
    }
    return Page(found, None, 0);
  }

  lemma NoHits(hit: Coin -> bool)
    ensures Hits([], hit) == []
  {
  }

  lemma ConsumedNone(coins: seq<Coin>, hit: Coin -> bool)
    ensures Consumed(coins, hit, 0) == 0
  {
  }

  lemma ConsumedEnd(coins: seq<Coin>, hit: Coin -> bool, limit: nat)
    ensures Consumed(coins[|coins|..], hit, limit) == 0
  {
  }

  // ---- paging by offset ----

  /** The hits numbered from `a` to `b`. */
  function Range(hits: seq<Coin>, a: nat, b: nat): seq<Coin> {
    if a <= b then
      if |hits| <= a then [] else if |hits| <= b then hits[a..] else hits[a..b]
    else []
  }

  lemma RangeNext(hits: seq<Coin>, c: Coin, a: nat, b: nat)
    ensures Range(hits + [c], a, b) == if a <= |hits| < b then Range(hits, a, b) + [c] else Range(hits, a, b)
  {
  }

  /** The first coin, from `i` on, with which `k` hits have been seen. */
  function Reach(coins: seq<Coin>, hit: Coin -> bool, k: nat, i: nat): (r: nat)
    requires i <= |coins|
    ensures i <= r <= |coins|
    decreases |coins| - i
  {
    if i == |coins| then i
    else if |Hits(coins[..i + 1], hit)| == k then i
    else Reach(coins, hit, k, i + 1)
  }

  /** The hits from `offset` to `end`, and the coin with which `k` hits have been seen as the next key. */
  ghost function PageBetween(coins: seq<Coin>, hit: Coin -> bool, offset: nat, end: nat, k: nat, countTotal: bool): Page {
    var at := Reach(coins, hit, k, 0);
    var seen := if countTotal || at == |coins| then coins else coins[..at + 1];
    Page(Range(Hits(seen, hit), offset, end), if at < |coins| then Some(coins[at].denom) else None,
         if countTotal then |Hits(coins, hit)| else 0)
  }

  /** The page from an offset, with the wrap-around of 64-bit sums. */
  ghost function OffsetPageAt(coins: seq<Coin>, hit: Coin -> bool, offset: nat, limit: nat, countTotal: bool): Page {
    var end := (offset + limit) % WRAP;
    PageBetween(coins, hit, offset, end, (end + 1) % WRAP, countTotal)
  }

  /** The offset arm of `FilteredPaginateAccountBalances`. */
  method OffsetPage(coins: seq<Coin>, hit: Coin -> bool, offset: nat, limit: nat, countTotal: bool) returns (page: Page)
    requires |coins| < WRAP
    ensures page == OffsetPageAt(coins, hit, offset, limit, countTotal)
  {
    hide Hits, Reach, Range;
    var end := (offset + limit) % WRAP;
    var endNext := (end + 1) % WRAP;
    var numHits, nextKey, found := 0, None, [];
    ghost var at := Reach(coins, hit, endNext, 0);
    RangeStart(hit, offset, end);
    assert coins[..0] == [];
    var i := 0;
    while i < |coins|
      invariant 0 <= i <= |coins|
      invariant numHits == |Hits(coins[..i], hit)| && found == Range(Hits(coins[..i], hit), offset, end)
      invariant nextKey.None? ==> at == Reach(coins, hit, endNext, i)
      invariant nextKey.Some? ==> at < i && nextKey == Some(coins[at].denom) && countTotal
    {
      HitsNext(coins, hit, i);
      RangeNext(Hits(coins[..i], hit), coins[i], offset, end);
      ReachNext(coins, hit, endNext, i);
      HitsCount(coins[..i + 1], hit);
      var accumulate := offset <= numHits < end;
      if hit(coins[i]) {
        if accumulate {
          found := found + [coins[i]];
        }
        numHits := numHits + 1;
      }
      if numHits == endNext {
        if nextKey.None? {
          nextKey := Some(coins[i].denom);
        }
        if !countTotal {
          return Page(found, nextKey, 0);
        }
      }
      i := i + 1;
    }
    assert coins[..|coins|] == coins;
    ReachEnd(coins, hit, endNext);
    return Page(found, nextKey, if countTotal then numHits else 0);
  }

  lemma RangeStart(hit: Coin -> bool, a: nat, b: nat)
    ensures Range(Hits([], hit), a, b) == [] && |Hits([], hit)| == 0
  {
  }

  lemma ReachNext(coins: seq<Coin>, hit: Coin -> bool, k: nat, i: nat)
    requires i < |coins|
    ensures Reach(coins, hit, k, i) == if |Hits(coins[..i + 1], hit)| == k then i else Reach(coins, hit, k, i + 1)
  {
  }

  lemma ReachEnd(coins: seq<Coin>, hit: Coin -> bool, k: nat)
    ensures Reach(coins, hit, k, |coins|) == |coins|
  {
  }

  // ---- a request ----

  /** `FilteredPaginateAccountBalances` */
  method Paginate(coins: seq<Coin>, hit: Coin -> bool, req: PageRequest) returns (r: Response)
    requires |coins| < WRAP && req.offset < WRAP && req.limit < WRAP
    ensures req.reverse ==> r == Err(ReverseNotEnabled)
    ensures !req.reverse && req.offset > 0 && req.key.Some? ==> r == Err(BothOffsetAndKey)
    ensures !req.reverse && !(req.offset > 0 && req.key.Some?) ==>
              var limit := if req.limit == 0 then DEFAULT_LIMIT else req.limit;
              if req.key.Some? && |req.key.value| > 0 then
                IndexOf(coins, req.key.value) <= |coins| && r == Ok(KeyPageAt(coins, hit, IndexOf(coins, req.key.value), limit))
              else
                r == Ok(OffsetPageAt(coins, hit, req.offset, limit, req.countTotal || req.limit == 0))
  {
    hide KeyPageAt, OffsetPageAt, IndexOf;
    if req.reverse {
      return Err(ReverseNotEnabled);
    }
    if req.offset > 0 && req.key.Some? {
      return Err(BothOffsetAndKey);
    }
    var limit, countTotal := req.limit, req.countTotal;
    if limit == 0 {
      limit, countTotal := DEFAULT_LIMIT, true;
    }
    if req.key.Some? && |req.key.value| > 0 {
      var page := KeyPage(coins, hit, req.key.value, limit);
      return Ok(page);
    }
    var page := OffsetPage(coins, hit, req.offset, limit, countTotal);
    return Ok(page);
  }

  // ---- what a single page is ----

  /** A page by key stops with the limit-th hit, or at the end. */
  lemma {:induction false} ConsumedMeans(coins: seq<Coin>, hit: Coin -> bool, limit: nat)
    ensures
      var c := Consumed(coins, hit, limit);
      && |Hits(coins[..c], hit)| <= limit
      && (c < |coins| ==> |Hits(coins[..c], hit)| == limit && (limit > 0 ==> c > 0 && hit(coins[c - 1])))
  {
    hide Hits;
    NoHits(hit);
    if coins == [] || limit == 0 {
      assert coins[..0] == [];
    } else {
      var rest := coins[1..];
      var limit' := if hit(coins[0]) then limit - 1 else limit;
      var c := Consumed(rest, hit, limit');
      ConsumedMeans(rest, hit, limit');
      assert coins[..1 + c] == coins[..1] + rest[..c];
      HitsConcat(coins[..1], rest[..c], hit);
      assert coins[..0] == [];
      HitsNext(coins, hit, 0);
      if limit' == 0 { ConsumedNone(rest, hit); }
    }
  }

  function Clip(hits: seq<Coin>, from: nat, to: nat): seq<Coin>
    requires from <= to
  {
    if to <= |hits| then hits[from..to] else if from <= |hits| then hits[from..] else []
  }

  /** A page by key has the first hits from the key on, as many as the limit allows, and goes on only if it is full. */
  lemma KeyPageMeans(coins: seq<Coin>, hit: Coin -> bool, s: nat, limit: nat)
    requires s <= |coins|
    ensures
      var page := KeyPageAt(coins, hit, s, limit);
      && page.coins == Clip(Hits(coins[s..], hit), 0, limit)
      && (page.nextKey.Some? ==> |page.coins| == limit)
      && page.total == 0
  {
    hide Hits, Consumed;
    var rest := coins[s..];
    var c := Consumed(rest, hit, limit);
    ConsumedMeans(rest, hit, limit);
    assert coins[s..s + c] == rest[..c];
    HitsConcat(rest[..c], rest[c..], hit);
    assert rest[..c] + rest[c..] == rest;
    if c == |rest| { assert rest[..c] == rest; }
  }

  lemma PlainPage(coins: seq<Coin>, hit: Coin -> bool, offset: nat, limit: nat, countTotal: bool)
    requires offset + limit < WRAP - 1
    ensures OffsetPageAt(coins, hit, offset, limit, countTotal)
         == PageBetween(coins, hit, offset, offset + limit, offset + limit + 1, countTotal)
  {
    hide PageBetween;
  }

  lemma PlainCoins(coins: seq<Coin>, hit: Coin -> bool, offset: nat, end: nat, countTotal: bool)
    requires offset <= end
    ensures PageBetween(coins, hit, offset, end, end + 1, countTotal).coins == Clip(Hits(coins, hit), offset, end)
  {
    hide Hits, Reach, Range;
    var at := Reach(coins, hit, end + 1, 0);
    SplitAtHit(coins, hit, end);
    if at < |coins| {
      var h, t := Hits(coins[..at], hit), Hits(coins[at..], hit);
      RangeUpTo(h, t, offset);
      RangeUpTo(h, [coins[at]], offset);
      assert (h + t)[offset..end] == h[offset..];
    } else {
      RangeToEnd(Hits(coins, hit), offset, end);
    }
  }

  lemma PlainNext(coins: seq<Coin>, hit: Coin -> bool, offset: nat, end: nat, countTotal: bool)
    ensures
      var next, hits := PageBetween(coins, hit, offset, end, end + 1, countTotal).nextKey, Hits(coins, hit);
      next == if |hits| > end then Some(hits[end].denom) else None
  {
    hide Hits, Reach, Range;
    var at := Reach(coins, hit, end + 1, 0);
    SplitAtHit(coins, hit, end);
    if at < |coins| {
      FirstHit(coins, hit, at);
    }
  }

  /**
   Below the wrap-around, a page by offset has the hits numbered from the offset on, as many as the limit allows, and goes
   on with the next hit if there is one; the total, if asked for, is the number of all hits.
   */
  lemma OffsetPageMeans(coins: seq<Coin>, hit: Coin -> bool, offset: nat, limit: nat, countTotal: bool)
    requires offset + limit < WRAP - 1
    ensures
      var page, hits := OffsetPageAt(coins, hit, offset, limit, countTotal), Hits(coins, hit);
      && page.coins == Clip(hits, offset, offset + limit)
      && page.nextKey == (if |hits| > offset + limit then Some(hits[offset + limit].denom) else None)
      && page.total == if countTotal then |hits| else 0
  {
    hide Hits, Reach, Range, OffsetPageAt, Clip;
    PlainPage(coins, hit, offset, limit, countTotal);
    PlainCoins(coins, hit, offset, offset + limit, countTotal);
    PlainNext(coins, hit, offset, offset + limit, countTotal);
  }

  lemma FirstHit(coins: seq<Coin>, hit: Coin -> bool, at: nat)
    requires at < |coins| && Hits(coins[..at + 1], hit) == Hits(coins[..at], hit) + [coins[at]]
    ensures Hits(coins, hit) == Hits(coins[..at], hit) + [coins[at]] + Hits(coins[at + 1..], hit)
  {
    hide Hits;
    HitsConcat(coins[..at + 1], coins[at + 1..], hit);
    assert coins[..at + 1] + coins[at + 1..] == coins;
  }

  // ---- the walk over all pages ----

  ghost predicate DistinctDenoms(coins: seq<Coin>) {
    && (forall i | 0 <= i < |coins| :: |coins[i].denom| > 0)
    && (forall i, j | 0 <= i < j < |coins| :: coins[i].denom != coins[j].denom)
  }

  lemma IndexOfDenom(coins: seq<Coin>, i: nat)
    requires DistinctDenoms(coins) && i < |coins|
    ensures IndexOf(coins, coins[i].denom) == i
  {
    IndexOfFirst(coins, coins[i].denom);
  }

  lemma {:induction false} ConsumedProgress(coins: seq<Coin>, hit: Coin -> bool, limit: nat)
    requires coins != [] && limit > 0
    ensures Consumed(coins, hit, limit) > 0
  {
  }

  function DropHits(hits: seq<Coin>, n: nat): seq<Coin> {
    if n <= |hits| then hits[n..] else []
  }

  /**
   What a walk from an offset sees: the hits from the offset on, unless the 64-bit sum of offset and limit is at its end. One less
   than the wrap-around, the first page's comparison with the number of hits already holds before anything was hit, so unless the
   first coin is a hit everything comes (again). From the wrap-around on, the walk starts at the hit that the sum wraps to.
   */
  function Walked(coins: seq<Coin>, hit: Coin -> bool, offset: nat, limit: nat, countTotal: bool): seq<Coin> {
    var hits := Hits(coins, hit);
    if offset + limit < WRAP - 1 then DropHits(hits, offset)
    else if offset + limit >= WRAP then DropHits(hits, offset + limit - WRAP)
    else if coins == [] || hit(coins[0]) then DropHits(hits, offset)
    else (if countTotal then DropHits(hits, offset) else []) + hits
  }

  lemma {:induction false} ReachSpec(coins: seq<Coin>, hit: Coin -> bool, k: nat, i: nat)
    requires i <= |coins| && |Hits(coins[..i], hit)| < k
    ensures
      var r := Reach(coins, hit, k, i);
      if r < |coins| then |Hits(coins[..r], hit)| == k - 1 && hit(coins[r]) && |Hits(coins[..r + 1], hit)| == k
      else |Hits(coins, hit)| < k
    decreases |coins| - i
  {
    if i == |coins| {
      assert coins[..i] == coins;
    } else {
      HitsNext(coins, hit, i);
      if |Hits(coins[..i + 1], hit)| != k {
        ReachSpec(coins, hit, k, i + 1);
      }
    }
  }

  lemma RangeUpTo(a: seq<Coin>, b: seq<Coin>, offset: nat)
    requires offset <= |a|
    ensures Range(a + b, offset, |a|) == a[offset..]
  {
  }

  lemma RangeToEnd(hits: seq<Coin>, a: nat, b: nat)
    requires |hits| <= b
    ensures Range(hits, a, b) == if a <= b then DropHits(hits, a) else []
  {
  }

  lemma RangeBackwards(hits: seq<Coin>, a: nat, b: nat)
    requires b < a
    ensures Range(hits, a, b) == []
  {
  }

  /** The page goes on where coin `at` stands, and from there on everything is still to come. */
  ghost predicate StartsWalk(coins: seq<Coin>, hit: Coin -> bool, page: Page, at: nat, all: seq<Coin>) {
    && at <= |coins|
    && page.nextKey == (if at < |coins| then Some(coins[at].denom) else None)
    && page.coins + Hits(coins[at..], hit) == all
  }

  /** The coins before and after the one with which `end + 1` hits have been seen. */
  lemma SplitAtHit(coins: seq<Coin>, hit: Coin -> bool, end: nat)
    ensures
      var at := Reach(coins, hit, end + 1, 0);
      && Hits(coins, hit) == Hits(coins[..at], hit) + Hits(coins[at..], hit)
      && if at < |coins| then
           |Hits(coins[..at], hit)| == end && Hits(coins[..at + 1], hit) == Hits(coins[..at], hit) + [coins[at]]
         else |Hits(coins, hit)| <= end && Hits(coins[at..], hit) == []
  {
    hide Hits, Reach;
    var at := Reach(coins, hit, end + 1, 0);
    NoHits(hit);
    assert coins[..0] == [];
    ReachSpec(coins, hit, end + 1, 0);
    HitsConcat(coins[..at], coins[at..], hit);
    assert coins[..at] + coins[at..] == coins;
    if at < |coins| {
      HitsNext(coins, hit, at);
    } else {
      assert coins[at..] == [];
    }
  }

  /** Without wrap-around the first page takes the hits from the offset to the limit. */
  lemma FirstPage(coins: seq<Coin>, hit: Coin -> bool, offset: nat, limit: nat, countTotal: bool)
    requires |coins| < WRAP && offset + limit < WRAP - 1
    ensures StartsWalk(coins, hit, OffsetPageAt(coins, hit, offset, limit, countTotal),
                       Reach(coins, hit, offset + limit + 1, 0), DropHits(Hits(coins, hit), offset))
  {
    hide Hits, Reach, Range;
    var end := offset + limit;
    var at := Reach(coins, hit, end + 1, 0);
    SplitAtHit(coins, hit, end);
    if at < |coins| {
      var h := Hits(coins[..at], hit);
      RangeUpTo(h, Hits(coins[at..], hit), offset);
      RangeUpTo(h, [coins[at]], offset);
      assert h[offset..] + Hits(coins[at..], hit) == DropHits(Hits(coins, hit), offset);
    } else {
      RangeToEnd(Hits(coins, hit), offset, end);
      assert DropHits(Hits(coins, hit), offset) + [] == DropHits(Hits(coins, hit), offset);
    }
  }

  /** From the wrap-around on the first page is empty, and the next key is that of the hit to which the sum wraps. */
  lemma FirstPagePast(coins: seq<Coin>, hit: Coin -> bool, offset: nat, limit: nat, countTotal: bool)
    requires |coins| < WRAP && offset < WRAP && limit < WRAP && offset + limit >= WRAP
    ensures StartsWalk(coins, hit, OffsetPageAt(coins, hit, offset, limit, countTotal),
                       Reach(coins, hit, offset + limit - WRAP + 1, 0), DropHits(Hits(coins, hit), offset + limit - WRAP))
  {
    hide Hits, Reach, Range;
    var end := offset + limit - WRAP;
    assert (offset + limit) % WRAP == end;
    var at := Reach(coins, hit, end + 1, 0);
    SplitAtHit(coins, hit, end);
    RangeBackwards(Hits(coins, hit), offset, end);
    if at < |coins| {
      RangeBackwards(Hits(coins[..at + 1], hit), offset, end);
    }
    assert [] + Hits(coins[at..], hit) == DropHits(Hits(coins, hit), end);
  }

  lemma {:induction false} ReachZero(coins: seq<Coin>, hit: Coin -> bool, i: nat)
    requires i <= |coins| && |Hits(coins[..i], hit)| > 0
    ensures Reach(coins, hit, 0, i) == |coins|
    decreases |coins| - i
  {
    if i < |coins| {
      HitsNext(coins, hit, i);
      ReachZero(coins, hit, i + 1);
    }
  }

  lemma ReachWrapped(coins: seq<Coin>, hit: Coin -> bool)
    ensures Reach(coins, hit, 0, 0) == if coins == [] || hit(coins[0]) then |coins| else 0
  {
    hide Hits, Reach;
    if coins == [] {
      ReachEnd(coins, hit, 0);
    } else {
      NoHits(hit);
      assert coins[..0] == [];
      HitsNext(coins, hit, 0);
      ReachNext(coins, hit, 0, 0);
      if hit(coins[0]) {
        ReachZero(coins, hit, 1);
      }
    }
  }

  lemma FirstMiss(coins: seq<Coin>, hit: Coin -> bool)
    requires coins != [] && !hit(coins[0])
    ensures Hits(coins[..1], hit) == []
  {
    assert coins[..1][..0] == [];
  }

  lemma WrappedPage(coins: seq<Coin>, hit: Coin -> bool, offset: nat, limit: nat, countTotal: bool)
    requires offset + limit == WRAP - 1
    ensures OffsetPageAt(coins, hit, offset, limit, countTotal) == PageBetween(coins, hit, offset, WRAP - 1, 0, countTotal)
  {
    hide PageBetween;
  }

  lemma FirstIsHit(coins: seq<Coin>, hit: Coin -> bool, offset: nat, countTotal: bool)
    requires |coins| < WRAP && offset < WRAP && (coins == [] || hit(coins[0]))
    ensures StartsWalk(coins, hit, PageBetween(coins, hit, offset, WRAP - 1, 0, countTotal), |coins|,
                       DropHits(Hits(coins, hit), offset))
  {
    hide Hits, Reach, Range, DropHits;
    HitsCount(coins, hit);
    RangeToEnd(Hits(coins, hit), offset, WRAP - 1);
    ReachWrapped(coins, hit);
    NoHits(hit);
    assert coins[|coins|..] == [];
  }

  lemma DropNone(n: nat)
    ensures DropHits([], n) == []
  {
  }

  /** The page that stops at a first coin that is no hit. */
  lemma NoHitPage(coins: seq<Coin>, hit: Coin -> bool, offset: nat, countTotal: bool)
    requires |coins| < WRAP && offset < WRAP && coins != [] && !hit(coins[0])
    ensures
      var page := PageBetween(coins, hit, offset, WRAP - 1, 0, countTotal);
      && page.coins == (if countTotal then DropHits(Hits(coins, hit), offset) else [])
      && page.nextKey == Some(coins[0].denom)
  {
    hide Hits, Reach, Range, DropHits;
    ReachWrapped(coins, hit);
    if countTotal {
      HitsCount(coins, hit);
      RangeToEnd(Hits(coins, hit), offset, WRAP - 1);
    } else {
      FirstMiss(coins, hit);
      RangeToEnd([], offset, WRAP - 1);
      DropNone(offset);
    }
  }

  lemma FirstIsNoHit(coins: seq<Coin>, hit: Coin -> bool, offset: nat, countTotal: bool)
    requires |coins| < WRAP && offset < WRAP && coins != [] && !hit(coins[0])
    ensures StartsWalk(coins, hit, PageBetween(coins, hit, offset, WRAP - 1, 0, countTotal), 0,
                       (if countTotal then DropHits(Hits(coins, hit), offset) else []) + Hits(coins, hit))
  {
    hide Hits, DropHits, PageBetween;
    NoHitPage(coins, hit, offset, countTotal);
    assert coins[0..] == coins;
  }

  /** One less than the wrap-around, the comparison is with zero hits. */
  lemma FirstPageWrapped(coins: seq<Coin>, hit: Coin -> bool, offset: nat, limit: nat, countTotal: bool)
    requires |coins| < WRAP && offset + limit == WRAP - 1
    ensures StartsWalk(coins, hit, OffsetPageAt(coins, hit, offset, limit, countTotal),
                       Reach(coins, hit, 0, 0), Walked(coins, hit, offset, limit, countTotal))
  {
    hide Hits, Reach, Range, OffsetPageAt, PageBetween, StartsWalk, DropHits;
    WrappedPage(coins, hit, offset, limit, countTotal);
    ReachWrapped(coins, hit);
    if coins == [] || hit(coins[0]) {
      FirstIsHit(coins, hit, offset, countTotal);
    } else {
      FirstIsNoHit(coins, hit, offset, countTotal);
    }
  }

  /** Where the second page of a walk starts. */
  lemma StartAt(coins: seq<Coin>, hit: Coin -> bool, offset: nat, limit: nat, countTotal: bool) returns (at: nat)
    requires |coins| < WRAP && offset < WRAP && limit < WRAP
    ensures StartsWalk(coins, hit, OffsetPageAt(coins, hit, offset, limit, countTotal), at,
                       Walked(coins, hit, offset, limit, countTotal))
  {
    hide Hits, Reach, OffsetPageAt, StartsWalk, DropHits;
    if offset + limit < WRAP - 1 {
      FirstPage(coins, hit, offset, limit, countTotal);
      at := Reach(coins, hit, offset + limit + 1, 0);
    } else if offset + limit >= WRAP {
      FirstPagePast(coins, hit, offset, limit, countTotal);
      at := Reach(coins, hit, offset + limit - WRAP + 1, 0);
    } else {
      FirstPageWrapped(coins, hit, offset, limit, countTotal);
      at := Reach(coins, hit, 0, 0);
    }
  }

  lemma KeyPageStep(coins: seq<Coin>, hit: Coin -> bool, at: nat, limit: nat)
    requires at < |coins| && limit > 0
    ensures
      var e := at + Consumed(coins[at..], hit, limit);
      at < e <= |coins| && KeyPageAt(coins, hit, at, limit).coins + Hits(coins[e..], hit) == Hits(coins[at..], hit)
  {
    hide Hits;
    ConsumedProgress(coins[at..], hit, limit);
    var e := at + Consumed(coins[at..], hit, limit);
    HitsConcat(coins[at..e], coins[e..], hit);
    assert coins[at..e] + coins[e..] == coins[at..];
  }

  /** A client that starts at an offset and follows the next keys to the end. */
  method Walk(coins: seq<Coin>, hit: Coin -> bool, offset: nat, limit: nat, countTotal: bool) returns (all: seq<Coin>)
    requires |coins| < WRAP && offset < WRAP && limit < WRAP && DistinctDenoms(coins)
    ensures all == if limit == 0 then Walked(coins, hit, offset, DEFAULT_LIMIT, true)
                   else Walked(coins, hit, offset, limit, countTotal)
  {
    hide Hits, Reach, Consumed, KeyPageAt, OffsetPageAt, IndexOf, Walked;
    var first := Paginate(coins, hit, PageRequest(None, offset, limit, countTotal, false));
    all := first.page.coins;
    var next := first.page.nextKey;
    ghost var effective := if limit == 0 then DEFAULT_LIMIT else limit;
    ghost var whole := Walked(coins, hit, offset, effective, countTotal || limit == 0);
    ghost var at: nat := StartAt(coins, hit, offset, effective, countTotal || limit == 0);
    while next.Some?
      invariant at <= |coins| && all + Hits(coins[at..], hit) == whole
      invariant next == if at < |coins| then Some(coins[at].denom) else None
      decreases |coins| - at
    {
      IndexOfDenom(coins, at);
      KeyPageStep(coins, hit, at, effective);
      var r := Paginate(coins, hit, PageRequest(next, 0, limit, countTotal, false));
      KeyPageNext(coins, hit, at, effective);
      all := all + r.page.coins;
      next := r.page.nextKey;
      at := at + Consumed(coins[at..], hit, effective);
    }
    NoHits(hit);
    assert coins[at..] == [];
  }

  /** A walk from the start sees every hit exactly once and in order, unless its first page wraps and finds no hit in front. */
  lemma WalkSeesAll(coins: seq<Coin>, hit: Coin -> bool, limit: nat, countTotal: bool)
    requires limit < WRAP
    ensures Walked(coins, hit, 0, limit, countTotal) == Hits(coins, hit) <==>
            limit < WRAP - 1 || !countTotal || coins == [] || hit(coins[0]) || Hits(coins, hit) == []
  {
    hide Hits;
    var hits := Hits(coins, hit);
    assert DropHits(hits, 0) == hits && [] + hits == hits;
    assert |hits + hits| == 2 * |hits|;
  }

  /** The total of a page by offset is the number of hits that a walk from the start sees, whatever their offsets and limits. */
  lemma TotalIsWalk(coins: seq<Coin>, hit: Coin -> bool, offset: nat, limit: nat, limit': nat, countTotal: bool)
    requires |coins| < WRAP && limit' < WRAP - 1
    ensures OffsetPageAt(coins, hit, offset, limit, true).total == |Walked(coins, hit, 0, limit', countTotal)|
    ensures OffsetPageAt(coins, hit, offset, limit, false).total == 0
  {
    hide Hits, Reach, Range;
  }

  lemma KeyPageNext(coins: seq<Coin>, hit: Coin -> bool, at: nat, limit: nat)
    requires at <= |coins|
    ensures
      var e := at + Consumed(coins[at..], hit, limit);
      KeyPageAt(coins, hit, at, limit).nextKey == if e < |coins| then Some(coins[e].denom) else None
  {
  }
}
