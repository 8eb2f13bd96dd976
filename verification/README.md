# Verified models of the sum tree, the reward accumulator, fixed-point arithmetic, pagination and the tree codec

This project models five parts of the repository that keep non-trivial state or do real arithmetic, and proves what they promise
for every input, every run or every reachable state. `dafny verify dfyconfig.toml` checks all of it.

**Sum tree** (`KeyOrder`, `MapSum`, `SumTreeLevel`, `SumTreeTower`, `SumTreeQuery`, `SumTreeRemove`, `SumTreePull`, `SumTreeHeight`,
`SumTree`, `SumTreeRuns`, `NodeKey`). A B+ tree over an ordered store, in which every branch entry caches the sum of the leaves below it
and a parent is found by ordered lookup alone. The class `SumTree.Tree` has the store as its state and the source's operations as
methods. The specification is the flat map `leaves`. `Tower` says that level by level the entries of the nodes are exactly the nodes
below, sorted, each listed by the node that covers it, with its current sum, up to one root at the empty key. Every run of `Set`,
`Increase`, `Decrease` and of removals that do not empty their node keeps this, including the case where a parent splits while its child
is being pushed, for every branching factor, and the queries then return exactly the flat map's sums. The order of byte strings is
embedded into the reals (`Rank`), so that proofs about it are linear arithmetic. Findings about the code:

- `Remove` is exact on the leaves, but the tree stays well formed if and only if `RemoveKeeps` holds, which is a condition on the store
  before the call. A removal can empty nodes on several levels and then merge neighbours on the way down. A merge tells the parent the
  left node's sum from before it, so it loses the right node's sum, unless a merge one level below repairs it and loses its own instead.
  Without a merge, the removal breaks the tree when a node loses its first child. `ValueLost` is a run of the interface that ends in a
  broken store: six keys set in a new tree with three children to a node, then every leaf removed that is not the first of its node, then
  the second leaf.
- A query returns the flat map's sums if and only if the key is `Grounded`; otherwise the descent goes to child -1 and panics. Every key
  is grounded in a tree that was only added to, and the empty key is if and only if it is a leaf. `EmptyKeyRemoved` is a run that ends
  in the panic.
- `SubsetAccumulation` without bounds, and so `TotalAccumulatedValue`, returns the value at the empty key only. Among values that are not
  negative this is the total if and only if all other leaves are zero.

**Reward accumulator** (`DecCoins`, `Accum`, `AccumRun`, `AccumEffects`, `AccumKeys`, `AccumStore`). `Accum` is the state machine,
`AccumRun` proves its invariant and its conservation law over whole runs, `AccumEffects` says call by call what changes and what does
not, `AccumKeys` is the layout of the store's keys, and `AccumStore` holds the handle with its cache and the shared store as classes
whose methods refine the state machine. Findings: opening a position over an existing one breaks the total unless the old one had no
shares, and the check on accumulator names admits names ending in a bar, for which position keys of two accumulators can be equal;
`PositionKeyClash` says exactly when.

**Fixed-point arithmetic** (`Rounding`, `Binary`, `Dec`, `BigDec`, `RealPow`, `Power`, `PowerAccuracy`, `Log2`, `Log2Accuracy`, `PowApprox`,
`PowApproxAccuracy`, `Sqrt`, `BinarySearch`, `DecimalText`). Decimals are integers in units of their last place, and rounding is half to
even as in the source. Error bounds are stated over the reals. Findings: with a multiplicative tolerance the comparison of integers is monotone if and only if no number on the other side of
zero is accepted, which `AcceptsAcross` decides from the tolerance and the target alone; the decimal parser accepts more than its
documentation says, a second sign and signs without digits, and `ParseExactly` says exactly what.

**Pagination** (`Pagination`). Both arms of the page function, with 64-bit wrap-around, and the walk that starts at any offset and
follows the next keys. It accumulates the hits from the offset on, once and in order, except at the end of the 64-bit range, where
`Walked` says what it sees instead.

**Wire codec** (`Varint`, `TreeCodec`, `TreeDecode`, `TreeGrammar`). Backward writing into an exactly sized buffer and the forward
parser, after the Protocol Buffers Encoding document, sections "Base 128 Varints" and "Message Structure", with round trips, and exactly which bytes the
parser accepts, and as what: overlong numbers, fields it does not know, nested groups and repeated fields included.

The store is a parameter in the form of ordered maps, and the function that `BinarySearch` searches and the filter of the pagination are
function parameters. Panics and errors are results.

## Model

| member | source | states |
|---|---|---|
| KeyOrder.Compare | osmoutils/sumtree/node.go:226-238 | the sign of the comparison of two byte strings agrees with their ranks, both ways |
| KeyOrder.CompareIsByteOrder | osmoutils/sumtree/node.go:226-238 | the order of ranks is exactly the byte-wise lexicographic order |
| KeyOrder.FractionEmbeds | osmoutils/sumtree/node.go:226-238 | reading keys as base-257 fractions is an order embedding into the reals, so one exists |
| NodeKey.StoreKeyOrder | osmoutils/sumtree/tree.go:111-118 | store keys are ordered by level and then by key, and are injective |
| NodeKey.RootIsLast | osmoutils/sumtree/tree.go:125-137 | in a well-formed tree the last store key is that of the one node at the top level |
| NodeKey.SiblingOrder | osmoutils/sumtree/node.go:56-73 | within a level the store's iteration order is the order of the keys |
| SumTreeLevel.FindDecides | osmoutils/sumtree/node.go:226-238 | where the search in a sorted node stops decides whether the key is listed, and all later keys are greater |
| SumTreeLevel.FindInLevel | osmoutils/sumtree/node.go:226-238 | in the node that covers a key, the key is found if and only if it is an item of the level below |
| SumTreeLevel.CoverExists | osmoutils/sumtree/node.go:84-98 | as long as there is a node at the empty key, every key has a node that covers it |
| SumTreeLevel.CoverUnique | osmoutils/sumtree/node.go:84-98 | at most one node of a level covers a key |
| SumTreeLevel.ListedIff | osmoutils/sumtree/node.go:84-98 | the covering node lists a key if and only if the key is an item, so a parent found by lookup holds the caller's entry |
| SumTreeLevel.ReplaceNode | osmoutils/sumtree/node.go:33-39 | rewriting one node keeps the level well formed when its items change accordingly |
| SumTreeLevel.SetAccOK | osmoutils/sumtree/node.go:240-243 | writing one child's sum is the update of that item and keeps the level well formed |
| SumTreeLevel.InsertOK | osmoutils/sumtree/node.go:245-248 | inserting where the search stopped adds exactly that item and keeps the level well formed |
| SumTreeLevel.DeleteOK | osmoutils/sumtree/node.go:250-253 | deleting a child that is not the last one removes exactly that item |
| SumTreeLevel.SplitCovers | osmoutils/sumtree/node.go:146-149 | the key of the new node is new, and it takes over exactly what the old node covered from there on |
| SumTreeLevel.SplitOK | osmoutils/sumtree/node.go:146-149 | a split leaves the level well formed over the same items |
| SumTreeLevel.SplitKey | osmoutils/sumtree/node.go:146-149 | the key that a split creates is new, not empty, and was covered by the node that split |
| SumTreeTower.TowerTop | osmoutils/sumtree/tree.go:125-137 | the top level has exactly one node, at the empty key, and nothing is above it |
| SumTreeTower.SplitHasSameParent | osmoutils/sumtree/node.go:142-164 | if nodes are headed, the parent of the key of a new node is the parent of the node that split |
| SumTreeTower.ParentOfSplit | osmoutils/sumtree/node.go:142-164 | the same inside a whole tree that keeps its shape |
| SumTreeTower.InsertFits | osmoutils/sumtree/node.go:141-145 | inserting leaves the head of a node in place and makes it at most one child too large |
| SumTreeTower.SplitFits | osmoutils/sumtree/node.go:146-148 | both halves of an overfull node are within the bounds on children and headed |
| SumTreeTower.RootSplitOK | osmoutils/sumtree/node.go:149-156 | splitting the root under a new parent gives a well-formed tree one level higher |
| SumTreeTower.RootSplitFits | osmoutils/sumtree/node.go:149-156 | splitting the root keeps the heads and the bounds on children of the whole tree |
| SumTreeTower.InnerSplitOK | osmoutils/sumtree/node.go:157-164 | splitting an inner node under levels that have already been told gives a well-formed tree |
| SumTreeTower.FirstNode | osmoutils/sumtree/node.go:125-129 | the first node of an empty tree is a well-formed tree of one level |
| SumTreeQuery.AccumulateIsSum | osmoutils/sumtree/node.go:211-217 | the sum of a node's entries is the sum of the values of the items that they name |
| SumTreeQuery.SumOfKids | osmoutils/sumtree/node.go:211-217 | the cached sums of any set of nodes add up to the values of all their children |
| SumTreeQuery.StepLeft | osmoutils/sumtree/tree.go:235-243 | the sum below a child is the sum below its node one level up plus its left siblings |
| SumTreeQuery.StepRight | osmoutils/sumtree/tree.go:235-243 | the sum above a child is the sum above its node one level up plus its right siblings |
| SumTreeQuery.Descend | osmoutils/sumtree/tree.go:235-243 | the child index is in range if and only if the key is grounded, which a headed node guarantees, and the child then covers the key |
| SumTreeQuery.LeafStep | osmoutils/sumtree/tree.go:212-233 | the flat sums around a key follow from those around the leaf that covers it |
| SumTreeQuery.PrefixRange | osmoutils/sumtree/tree.go:252-254 | an inclusive prefix sum is the sum below the key plus the value at it |
| SumTreeQuery.MiddleRange | osmoutils/sumtree/tree.go:260-272 | a suffix sum minus the part above the end is the inclusive range sum |
| SumTreeQuery.SwappedRange | osmoutils/sumtree/tree.go:260-272 | with the bounds swapped the result is minus the sum strictly between them |
| SumTreeQuery.TotalIsEmptyKeyIff | osmoutils/sumtree/tree.go:247-249 | the value at the empty key is the total if and only if everything above it sums to zero, which for values that are not negative means that every other leaf is zero |
| SumTreeHeight.TowerCount | osmoutils/sumtree/node.go:145-164 | every level multiplies the number of items by at least half the branching factor, rounded up |
| SumTreeHeight.HeightBound | osmoutils/sumtree/node.go:145-164 | a tree with its root at level L of at least 2 has at least 2 * ceil(m/2)^(L-1) leaves, which from m = 3 on is at least 2^L |
| SumTreeRemove.DropOK | osmoutils/sumtree/node.go:189-193 | dropping a node with its only child removes exactly that item and that sum |
| SumTreeRemove.MergeOK | osmoutils/sumtree/node.go:199-204 | merging two neighbours leaves the level well formed over the same items |
| SumTreeRemove.LevelDetermines | osmoutils/sumtree/node.go:110-123 | the items that a level stands on can be read off its nodes, so a level that expects other sums than the one below has fits no tree |
| SumTreePull.GoneAlone | osmoutils/sumtree/node.go:188-193 | if the nodes that empty reach up to the root, there was one leaf only |
| SumTreePull.LeftmostGoes | osmoutils/sumtree/node.go:188-193 | emptying the leftmost node keeps the tree only if everything goes with it |
| SumTreePull.NeighboursAbove | osmoutils/sumtree/node.go:189-198 | beside a node that is its parent's only child, the right neighbour is the same key one level up, and the left one's parent is the left neighbour there |
| SumTreePull.MergedAbove | osmoutils/sumtree/node.go:202-206 | after a merge the stack is well formed if the right node's sum is zero, and under no root level otherwise |
| SumTreePull.LookupMerged | osmoutils/sumtree/node.go:195-198 | after a merge one level up, the neighbours have one parent, whose own cached sum is the only one out of date |
| SumTreePull.LookupAlone | osmoutils/sumtree/node.go:195-198 | if the parent went without a merge, the neighbours have different parents |
| SumTreePull.WentMerged | osmoutils/sumtree/node.go:193-208 | a merge one level up that the level below does not repeat leaves the stack well formed exactly if it dropped no sum |
| SumTreePull.WentAlone | osmoutils/sumtree/node.go:193-208 | without merges the stack is what the emptied parent left |
| SumTreePull.ParentStays | osmoutils/sumtree/node.go:182-193 | if the parent keeps a child, the stack is well formed unless the node was the parent's first child |
| SumTreePull.OutcomeDecides | osmoutils/sumtree/node.go:167-209 | at the lowest level the outcome says whether the store still holds a tree, nothing at all, or no tree under any root level |
| SumTree.Tree.Find | osmoutils/sumtree/node.go:226-238 | the position that is returned is the place of the key: smaller keys before it, and the key or a greater one at it |
| SumTree.Tree.Sum | osmoutils/sumtree/node.go:211-217 | the loop returns the sum of all entries |
| SumTree.Tree.GreatestBelow | osmoutils/sumtree/node.go:56-60 | the greatest key of a level strictly below a bound, or none if there is none |
| SumTree.Tree.LeastAbove | osmoutils/sumtree/node.go:62-73 | the right neighbour of a key in its level, or none if there is none |
| SumTree.Tree.Parent | osmoutils/sumtree/node.go:84-98 | the node that is returned covers the key, although only ordered lookup is used |
| SumTree.Tree.UpdateAccumulation | osmoutils/sumtree/node.go:110-123 | the update of one item repairs every sum above it and changes neither the shape nor any lower level; its panic cannot be reached |
| SumTree.Tree.Push | osmoutils/sumtree/node.go:125-165 | the item is added or replaced and the whole tree above is well formed again, growing by at most one level, with heads and bounds on children kept |
| SumTree.Tree.PushSplit | osmoutils/sumtree/node.go:144-164 | the overflow arm does so for root and inner nodes, also when the parent splits in turn and is looked up again |
| SumTree.Tree.Set | osmoutils/sumtree/tree.go:41-47 | the flat map is updated at one key and the tree over it is well formed; a built tree stays built |
| SumTree.Tree.Increase | osmoutils/sumtree/tree.go:59-62 | the same for an addition to the old value |
| SumTree.Tree.Decrease | osmoutils/sumtree/tree.go:64-66 | the same for a subtraction from the old value |
| SumTree.Tree.constructor | osmoutils/sumtree/tree.go:29-35 | opening any well-formed or empty store gives a well-formed tree with a leaf at the empty key and otherwise the same leaves |
| SumTree.Tree.Replay | osmoutils/sumtree/tree.go:29-66 | every run of updates and removals, from any well-formed tree, keeps the tree well formed and follows the flat map up to the first removal that would empty its node; without removals a built tree stays built |
| SumTree.Tree.IsOnlyChild | osmoutils/sumtree/node.go:182-186 | decides whether the removal of a leaf would empty its node |
| SumTree.Tree.Root | osmoutils/sumtree/tree.go:125-137 | the last node of the store is the root, at the top level and the empty key |
| SumTree.Tree.AccumulationSplit | osmoutils/sumtree/tree.go:212-244 | the descent succeeds if and only if the key is grounded, and returns the flat sums minus what lies outside the subtree |
| SumTree.Tree.SplitAcc | osmoutils/sumtree/tree.go:274-276 | exactly the flat map's sums below, at and above the key, or the panic exactly when no leaf grounds the key |
| SumTree.Tree.BuiltGrounded | osmoutils/sumtree/tree.go:212-244 | in every tree built by updates alone every key is grounded, so queries never panic |
| SumTree.Tree.EmptyKeyGrounded | osmoutils/sumtree/tree.go:235-240 | in a well-formed tree a query for the empty key succeeds if and only if the empty key is a leaf |
| SumTree.Tree.SubsetAccumulation | osmoutils/sumtree/tree.go:260-272 | the inclusive range sum of the flat map; the empty key's value without bounds |
| SumTree.Tree.PrefixSum | osmoutils/sumtree/tree.go:252-254 | the flat map's sum of all keys up to and including the key |
| SumTree.Tree.TotalAccumulatedValue | osmoutils/sumtree/tree.go:247-249 | the value at the empty key |
| SumTree.Tree.Pull | osmoutils/sumtree/node.go:167-186 | removing a child from a node that keeps another one removes that item and repairs every sum above, even if the one cached for the node was out of date; its panic cannot be reached |
| SumTree.Tree.MergeSiblings | osmoutils/sumtree/node.go:199-206 | the right node's children move to the left node, and the levels above are well formed but for the left node's sum, which is the one from before |
| SumTree.Tree.MergeNeighbours | osmoutils/sumtree/node.go:195-208 | the neighbours merge exactly if that was decided by the store before the removal, at every level |
| SumTree.Tree.PullLast | osmoutils/sumtree/node.go:188-208 | when a node at any level empties, the levels from it up are exactly as the store before the call decides: nothing, merged, whole or broken |
| SumTree.Tree.Remove | osmoutils/sumtree/tree.go:49-57 | exactly that leaf goes, and the tree stays well formed if and only if a condition on the store before the call holds, however many levels empty |
| SumTreeRuns.LossyRemoval | osmoutils/sumtree/node.go:195-208 | in every well-formed tree with one leaf to a node under one root, removing a leaf between two others breaks the tree unless the right one is zero |
| SumTreeRuns.ValueLost | osmoutils/sumtree/tree.go:41-57 | a run of sets and removals that ends in a store that holds no well-formed tree |
| SumTreeRuns.EmptyKeyRemoved | osmoutils/sumtree/tree.go:235-240 | a run of a set and a removal after which the tree is well formed but a query for the empty key panics |
| Rounding.RoundNearest | osmomath/decimal.go:743-773 | the result is a nearest multiple of the precision, and the even one of two, for negative numbers too |
| Rounding.RoundUnique | osmomath/decimal.go:743-773 | there is only one such number |
| Rounding.RoundMono | osmomath/decimal.go:743-773 | rounding keeps order |
| Rounding.RoundExact | osmomath/decimal.go:743-773 | multiples of the precision are not changed |
| DecCoins.Truncate | osmoutils/accum/accum.go:416-419 | whole coins and a change below one per denom that add up to the coins |
| DecCoins.TruncateBack | osmoutils/accum/accum.go:345-364 | the whole coins and the change together are the coins again |
| DecCoins.MulDec | osmoutils/accum/accum_helpers.go:37-45 | every amount times the decimal, rounded half to even, without zero amounts |
| DecCoins.SameAmounts | osmoutils/accum/accum.go:118-125 | coins in stored form are equal when all their amounts are |
| Accum.RewardsDefined | osmoutils/accum/accum_helpers.go:37-45 | under the invariant the subtraction of the start value never goes negative, and rewards are not negative |
| AccumEffects.RewardsAre | osmoutils/accum/accum_helpers.go:37-45 | rewards can be computed if and only if the position did not start above the value, and are then the decimals nearest to what was earned, on top of what was settled |
| AccumEffects.AddEffect | osmoutils/accum/accum.go:184-235 | when adding succeeds and which error it gives otherwise; the position then has n more shares, starts at the value, has its rewards unclaimed, the total is n more, and nothing else changes |
| AccumEffects.RemoveEffect | osmoutils/accum/accum.go:241-286 | when removing succeeds and which error it gives otherwise; the position then has n fewer shares, and the rest as for adding |
| AccumEffects.UpdateEffect | osmoutils/accum/accum.go:293-316 | an update adds n shares whatever the sign of n, and when it gives which error |
| AccumEffects.UpdateIsCloseAndReopen | osmoutils/accum/accum.go:206-316 | an update is closing the position and opening it with the new number of shares, with the pay-out kept as unclaimed rewards |
| AccumEffects.NewEffect | osmoutils/accum/accum.go:142-168 | a new position has n shares, starts at the value, has nothing unclaimed, and raises the total by n |
| AccumEffects.ClaimEffect | osmoutils/accum/accum.go:408-430 | a claim pays the rewards as whole coins and less than one of each denom, and the position is gone if and only if it had no shares |
| AccumEffects.CloseEffect | osmoutils/accum/accum.go:345-364 | closing pays the rewards, forgets the position and takes its shares out of the total |
| AccumEffects.GrantEffect | osmoutils/accum/accum.go:440-455 | a grant raises the unclaimed rewards of one position, or gives the error on a missing position or a negative amount |
| AccumEffects.DepositEffect | osmoutils/accum/accum.go:130-135 | a deposit raises the value by its amounts and touches neither positions nor total |
| AccumRun.StepKeepsInv | osmoutils/accum/accum.go:130-455 | every allowed call keeps the invariant: the shares of all positions add up to the total, no position starts above the current value; and no call panics |
| AccumRun.RunKeepsInv | osmoutils/accum/accum.go:130-455 | the invariant holds in every state that a run reaches |
| AccumRun.SettleError | osmoutils/accum/accum_helpers.go:37-45 | settling a position rounds its exact pending rewards by at most half a unit of the last place |
| AccumRun.DepositMoves | osmoutils/accum/accum.go:130-135 | a deposit raises the pending rewards of all positions by exactly the total shares times the deposit |
| AccumRun.ResizeConserves | osmoutils/accum/accum.go:206-286 | adding or removing shares moves the total pending rewards by at most half a unit |
| AccumRun.ClaimConserves | osmoutils/accum/accum.go:408-430 | a claim pays what it takes out of the pending rewards, up to half a unit |
| AccumRun.DeleteConserves | osmoutils/accum/accum.go:345-364 | closing a position pays what it takes out of the pending rewards, up to half a unit |
| AccumRun.StepConserves | osmoutils/accum/accum.go:130-455 | every allowed call moves rewards without loss, up to half a unit if it settles a position |
| AccumRun.RunGap | osmoutils/accum/accum.go:130-455 | over any run from any state with the invariant, paid plus pending rewards differ from what was funded by at most half a unit per settlement |
| AccumRun.RunConserves | osmoutils/accum/accum.go:130-455 | the same from an empty accumulator |
| AccumRun.ResizeKeepsRewards | osmoutils/accum/accum.go:206-316 | a resize does not change what its position could claim, nor any other position |
| AccumRun.AddIsCloseAndReopen | osmoutils/accum/accum.go:206-235 | adding shares is closing the position and opening it with all the shares, with the pay-out kept as unclaimed rewards |
| AccumRun.OverwriteIff | osmoutils/accum/accum.go:142-168 | opening a position over an existing one keeps the invariant if and only if the old one had no shares |
| AccumKeys.PositionKeyClash | osmoutils/accum/prefix.go:18-29 | for names that pass the check, two position keys are equal if and only if the pairs of names are, or one accumulator name is the other with a bar that the position name lacks |
| AccumKeys.KindsApart | osmoutils/accum/prefix.go:18-29 | accumulator keys and position keys are never equal |
| AccumKeys.BarClash | osmoutils/accum/accum.go:118-125 | two names that pass the check and whose position keys are equal |
| AccumStore.PutPosition | osmoutils/accum/accum_helpers.go:12-20 | writing one position changes that position of that accumulator, and no accumulator whose keys cannot clash |
| AccumStore.DropPosition | osmoutils/accum/accum.go:367-369 | deleting one position removes that position of that accumulator, and changes no accumulator whose keys cannot clash |
| AccumStore.PutContent | osmoutils/accum/accum.go:118-125 | writing the content of an accumulator changes its value and total, no position, and no other accumulator |
| AccumStore.Handle.constructor | osmoutils/accum/accum.go:82-95 | a handle on an existing accumulator agrees with the store |
| AccumStore.Handle.Open | osmoutils/accum/accum.go:82-95 | a handle whose state is that of the stored accumulator, or the error exactly when there is none |
| AccumStore.Handle.Make | osmoutils/accum/accum.go:36-50 | succeeds if and only if the name is free and has no separator, and then value and total are zero, over whatever positions the store has under that name; otherwise nothing is written |
| AccumStore.Handle.SetAccumulator | osmoutils/accum/accum.go:118-125 | the stored content becomes the cached one and the positions stay |
| AccumStore.Handle.GetPosition | osmoutils/accum/accum_helpers.go:23-34 | the stored position, or the error exactly when there is none |
| AccumStore.Handle.InitOrUpdatePosition | osmoutils/accum/accum_helpers.go:12-20 | the position is written and the rest of the state and of the store stays |
| AccumStore.Handle.GetTotalRewards | osmoutils/accum/accum_helpers.go:37-45 | refines the state machine's rewards, with its panic |
| AccumStore.Handle.AddToAccumulator | osmoutils/accum/accum.go:130-135 | refines the state machine's deposit and leaves other accumulators alone |
| AccumStore.Handle.MoveTotal | osmoutils/accum/accum.go:161-167 | the stored total is moved and the cache agrees with it afterwards |
| AccumStore.Handle.NewPosition | osmoutils/accum/accum.go:142-168 | refines the state machine's new position and leaves other accumulators alone |
| AccumStore.Handle.Resize | osmoutils/accum/accum.go:217-234 | settling and changing the shares refines the state machine's resize |
| AccumStore.Handle.AddToPosition | osmoutils/accum/accum.go:184-235 | refines the state machine, with every error; a failing call writes nothing |
| AccumStore.Handle.RemoveFromPosition | osmoutils/accum/accum.go:241-286 | refines the state machine, with every error; a failing call writes nothing |
| AccumStore.Handle.UpdatePosition | osmoutils/accum/accum.go:293-316 | refines the state machine, with every error; a failing call writes nothing |
| AccumStore.Handle.ClaimRewards | osmoutils/accum/accum.go:408-430 | refines the state machine's claim, with the coins and the dust that it pays |
| AccumStore.Handle.DeletePosition | osmoutils/accum/accum.go:345-364 | refines the state machine's closing, with the pay-out |
| AccumStore.Handle.AddToUnclaimedRewards | osmoutils/accum/accum.go:440-455 | refines the state machine, with every error; a failing call writes nothing |
| BigDec.UnitFits | osmomath/decimal.go:537-541 | numbers up to one in magnitude never trip the assertion on bit lengths |
| BigDec.FitsMono | osmomath/decimal.go:537-541 | whatever is no larger in magnitude than a number that passes the assertion passes it too |
| BigDec.MulValue | osmomath/decimal.go:345-351 | the rounded product is within half a unit of the exact product of the values |
| Power.PowerIntegerMut | osmomath/decimal.go:1162-1182 | the loop computes the square-and-multiply power, with its overflow panic |
| Power.PowerError | osmomath/decimal.go:1154-1182 | for a base from zero to one the n-th power never overflows and is within (n-1)/2 units of the exact power |
| Power.PowerWhole | osmomath/decimal.go:1154-1182 | for a whole-number base the power is exact, and panics if and only if the exact power does not fit |
| Power.PowerMono | osmomath/decimal.go:1154-1182 | for bases from zero up, a larger base has no smaller power, although every product rounds |
| Power.MulClose | osmomath/decimal.go:345-351 | the errors of two approximate powers add up in their product, plus half a unit |
| PowerAccuracy.MulNear | osmomath/decimal.go:345-351 | from one up, the proportional errors of two approximate powers multiply in their product, with one more unit |
| PowerAccuracy.PowerAbove | osmomath/decimal.go:1154-1182 | for a base from one up, the n-th power lies between the exact one times (1 - u)^(n-1) and times (1 + u)^(n-1), u being one unit, unless it overflows |
| PowerAccuracy.PowerFits | osmomath/decimal.go:1154-1182 | no power overflows whose base is at most a whole number with a power that fits |
| PowerAccuracy.PowerNegated | osmomath/decimal.go:1154-1182 | the power of the negated base is the power, negated exactly for odd exponents, overflow included |
| Log2.LogBase2 | osmomath/decimal.go:1070-1114 | the loops compute the digits of the logarithm, and panic exactly on numbers that are not positive |
| Log2.LogRange | osmomath/decimal.go:1070-1114 | the logarithm lies in the unit interval that starts at the exponent of the number |
| Log2.LogMono | osmomath/decimal.go:1070-1114 | the logarithm is monotone on all positive numbers, although every squaring rounds and every halving truncates |
| Log2.LogOfPower | osmomath/decimal.go:1070-1114 | the logarithm of a representable power of two, whole or fractional, is its exponent |
| Log2Accuracy.ExponentIsFloor | osmomath/decimal.go:1081-1094 | the exponent is the whole part of the true logarithm |
| Log2Accuracy.SquareStep | osmomath/decimal.go:1104-1111 | the next mantissa with its digit put back is the square up to one unit in proportion |
| Log2Accuracy.DigitsBelow | osmomath/decimal.go:1104-1111 | a mantissa raised to the power 2^i is at least the power of two that its first i digits name, up to a stated factor |
| Log2Accuracy.DigitsAbove | osmomath/decimal.go:1104-1111 | and at most the power of two one above that, up to a stated factor |
| Log2Accuracy.DigitsLoss | osmomath/decimal.go:1104-1111 | halving the worth of a digit loses less than one unit per digit |
| Log2Accuracy.LogAccuracy | osmomath/decimal.go:1070-1114 | x to the power 2^300 lies between two neighbouring powers of two, up to a stated factor for rounding, whose exponents are within 300 units of the result |
| PowApprox.AbsDifferenceWithSign | osmomath/math.go:38-44 | the distance of two decimals and the sign that gives the difference back |
| PowApprox.TermsFall | osmomath/math.go:145-154 | no term of the series is larger than the one before it, although each is rounded three times |
| PowApprox.FirstTerm | osmomath/math.go:145-154 | the first term is the exponent times the distance of the base from one |
| PowApprox.SumsAlternate | osmomath/math.go:135-177 | above one, from any point on the sums stay between that sum and the next one |
| PowApprox.SumsFall | osmomath/math.go:135-177 | below one, the sums never exceed one |
| PowApprox.NextTerm | osmomath/math.go:144-171 | one round computes the next term of the rounded series and adds or takes it away as its signs say |
| PowApprox.PowApprox | osmomath/math.go:87-178 | the loop returns the partial sum at which the terms fall below the precision, and panics exactly for a base that is not positive or at the iteration limit |
| PowApprox.PowApproxMeaning | osmomath/math.go:87-178 | the result is between 1 and 1 + exp * (base - 1) from one up and at most 1 up to one, and no longer sum is further away than the last term |
| PowApproxAccuracy.QuoMeans | osmomath/math.go:148-151 | a quotient times the divisor is within half of the divisor of the dividend, but for what the truncated division drops |
| PowApproxAccuracy.TermError | osmomath/math.go:144-151 | the i-th rounded term is within 2i units of the exact one |
| PowApproxAccuracy.SignedExact | osmomath/math.go:144-171 | the exact term with the sign that the loop gives it is the term of the binomial series |
| PowApproxAccuracy.SumError | osmomath/math.go:135-177 | the n-th partial sum is within n(n + 1) units of that of the binomial series for base^exp |
| Sqrt.IntSqrt | osmomath/sqrt.go:24-53 | the integer square root rounded down |
| Sqrt.MonotonicSqrt | osmomath/sqrt.go:24-88 | the least decimal whose square is at least the number, or the error exactly for negative numbers |
| Sqrt.RootMono | osmomath/sqrt.go:24-88 | larger numbers have no smaller roots |
| Sqrt.RootExact | osmomath/sqrt.go:24-88 | the root of a representable square is exact |
| BinarySearch.TooLow | osmomath/binary_search.go:33-84 | an output that is too low makes every lower output too low, unless numbers across zero are accepted and the lower one is across zero |
| BinarySearch.TooHigh | osmomath/binary_search.go:33-84 | an output that is too high makes every higher output too high, unless numbers across zero are accepted and the higher one is across zero |
| BinarySearch.AcrossIff | osmomath/binary_search.go:69-81 | some number across zero is within both tolerances if and only if the one is that is as far from zero as the target or as the additive tolerance reaches |
| BinarySearch.MonotoneIff | osmomath/binary_search.go:33-84 | the comparison is monotone over all integers if and only if no number across zero is accepted |
| BinarySearch.FromTwoOn | osmomath/binary_search.go:69-81 | without an additive tolerance, numbers across zero are accepted if and only if the multiplicative one is at least two |
| BinarySearch.NegativeOutputs | osmomath/binary_search.go:69-81 | a negative output that is accepted while a greater one is too low |
| BinarySearch.RelativeMeans | osmomath/binary_search.go:69-81 | a relative difference is within the tolerance if and only if the difference is below the tolerance and half a unit times the smaller number, or at it with an even tolerance |
| BinarySearch.CompareMeans | osmomath/binary_search.go:33-84 | the comparison is zero if and only if the direction allows it and the difference is within the additive and the multiplicative tolerance, as far as they are set, and otherwise the sign of the difference |
| BinarySearch.SearchErrors | osmomath/binary_search.go:221-252 | the function's error is given exactly when a point is tried at which there is one, and no iterations find nothing |
| BinarySearch.Search | osmomath/binary_search.go:221-252 | the loop bisects as the recursive form does, with the error of the searched function and the one for too few iterations |
| BinarySearch.FoundIsAccepted | osmomath/binary_search.go:221-252 | at what is found, the output's distance from the target is within the tolerances, and it is one of the points that bisection from these bounds can try, for every function and all bounds |
| BinarySearch.SearchFinds | osmomath/binary_search.go:221-252 | for an increasing function, all bounds of either sign, and more than ceil(log2(hi - lo)) iterations, a point is found if and only if some point that bisection can try is within tolerance |
| DecimalText.IntTextBack | osmomath/decimal.go:557-607 | the decimal text of every integer is read back as that integer |
| DecimalText.DecimalExactly | osmomath/decimal.go:557-607 | a number is written with the only digits without a leading zero that denote it |
| DecimalText.IntTextExactly | osmoutils/sumtree/tree.pb.go:244-267 | the text of an integer is a minus exactly for negative ones, and those digits |
| DecimalText.ToString | osmomath/decimal.go:557-607 | filling the buffer gives the text: sign, digits, point and padding with zeros |
| DecimalText.TextExactly | osmomath/decimal.go:557-607 | the printed text is the only one with a minus exactly for negative numbers, whole digits without a leading zero, a point and 36 decimals that denotes the number |
| DecimalText.ParseMeaning | osmomath/decimal.go:181-249 | text of the documented form, with or without a point, is parsed as the number that its digits denote, or is out of range above 1024 bits |
| DecimalText.ParseExactly | osmomath/decimal.go:198-249 | a text is accepted as a number if and only if it is an optional minus, an optional second sign, digits and optionally a point with 1 to 36 digits, with something before the point, and that number has at most 1024 bits |
| DecimalText.TextBack | osmomath/decimal.go:198-249 | printing and parsing gives every number of at most 1024 bits back |
| DecimalText.ExtraSigns | osmomath/decimal.go:198-249 | digits, or none, after two minus signs, after a plus and after a minus and a plus are accepted, and as which number |
| DecimalText.ParseErrors | osmomath/decimal.go:198-249 | each error and exactly the texts that it is given for: nothing after a minus, two points, an empty side of the point, too many decimals, out of range |
| Pagination.KeyPage | utils/bank.go:48-77 | the hits among the coins from the key on until the limit is reached, and the coin after them as the next key |
| Pagination.OffsetPage | utils/bank.go:78-112 | the hits numbered from the offset to the wrapped end, the next key, and the number of all hits if asked for |
| Pagination.Paginate | utils/bank.go:17-112 | both arms with the default limit, and the two errors exactly on their conditions |
| Pagination.KeyPageMeans | utils/bank.go:48-77 | a page by key has the first hits from the key on, as many as the limit allows, and goes on only if it is full |
| Pagination.OffsetPageMeans | utils/bank.go:78-112 | below the wrap-around a page by offset has the hits numbered from the offset to the limit, the next hit as the next key, and the number of all hits if asked for |
| Pagination.FirstPage | utils/bank.go:78-112 | below the wrap-around the first page and everything from its next key on are the hits from the offset on |
| Pagination.FirstPagePast | utils/bank.go:78-112 | from the wrap-around on the first page is empty and the next key is that of the hit to which the sum wraps |
| Pagination.FirstPageWrapped | utils/bank.go:78-112 | one less than the wrap-around, the page's comparison is with zero hits: what the first page is then |
| Pagination.Walk | utils/bank.go:17-112 | following the next keys from any offset ends, with the hits from the offset on, once and in order, or with what is stated at the end of the 64-bit range |
| Pagination.WalkSeesAll | utils/bank.go:17-112 | from the start every hit is seen exactly once if and only if the first page does not wrap with a total count, or a hit in front, or no hits at all |
| Pagination.TotalIsWalk | utils/bank.go:106-109 | the total is the number of hits that a walk from the start sees, and zero if it is not asked for |
| Varint.SovIsSize | osmoutils/sumtree/tree.pb.go:358-360 | the size formula over the bit length is the number of bytes of the varint |
| Binary.BitLenMeans | osmoutils/sumtree/tree.pb.go:358-360 | a number of k binary digits lies between two neighbouring powers of two |
| Varint.EncodeMeans | osmoutils/sumtree/tree.pb.go:304-314 | the bytes are seven bits each, least significant first, all but the last marked, and none too many |
| Varint.EncodeVarint | osmoutils/sumtree/tree.pb.go:304-314 | the varint is written so that it ends at the offset, and no other byte changes |
| Varint.DecodeVarint | osmoutils/sumtree/tree.pb.go:370-383 | the loop reads the 64-bit number, with overflow and end-of-input errors |
| Varint.ReadProgress | osmoutils/sumtree/tree.pb.go:370-383 | a varint that is read takes at least one byte and stays inside the input |
| Varint.ReadBack | osmoutils/sumtree/tree.pb.go:304-314 | every 64-bit number is read back as it was written, wherever it stands |
| Varint.ReadMeans | osmoutils/sumtree/tree.pb.go:370-383 | a number is read if and only if a varint of at most ten bytes stands there, modulo 2^64, and each error exactly for ten marked bytes and for the end of the input |
| TreeCodec.ReadIntBack | osmoutils/sumtree/tree.pb.go:244-267 | the text form of every integer of at most 256 bits is read back |
| TreeCodec.ReadIntExactly | osmoutils/sumtree/tree.pb.go:514-545 | bytes are read as an integer if and only if they are an optional sign and digits whose number has at most 256 bits |
| TreeCodec.ChildSize | osmoutils/sumtree/tree.pb.go:330-343 | the size of a child is the length of its encoding |
| TreeCodec.NodeSize | osmoutils/sumtree/tree.pb.go:315-328 | the size of a node is the length of its encoding |
| TreeCodec.MarshalChild | osmoutils/sumtree/tree.pb.go:244-267 | backward writing puts the encoding of the child at the end of the given part, and no other byte changes |
| TreeCodec.MarshalNode | osmoutils/sumtree/tree.pb.go:207-227 | the same for a node, written from its last child to its first |
| TreeCodec.Marshal | osmoutils/sumtree/tree.pb.go:192-200 | a buffer of the computed size is filled to its first byte with the encoding |
| TreeCodec.MarshalLeaf | osmoutils/sumtree/tree.pb.go:269-302 | the same for a leaf, which is empty without a child |
| TreeDecode.SkipTree | osmoutils/sumtree/tree.pb.go:652-729 | the loop finds the end of one field, nested groups and all errors included |
| TreeDecode.UnmarshalChild | osmoutils/sumtree/tree.pb.go:448-565 | the loop decodes a child on top of what was there, as the recursive form does |
| TreeDecode.Unmarshal | osmoutils/sumtree/tree.pb.go:364-447 | the loop decodes a node as the recursive form does, with every error |
| TreeDecode.UnmarshalLeaf | osmoutils/sumtree/tree.pb.go:566-651 | the loop decodes a leaf as the recursive form does, merging repeated fields |
| TreeDecode.FieldBack | osmoutils/sumtree/tree.pb.go:364-447 | a length-delimited field is taken apart as it was put together, wherever it stands |
| TreeDecode.ChildBack | osmoutils/sumtree/tree.pb.go:448-565 | every child is read back as it was written |
| TreeDecode.NodeBack | osmoutils/sumtree/tree.pb.go:364-447 | every node is read back as it was written |
| TreeDecode.LeafBack | osmoutils/sumtree/tree.pb.go:566-651 | every leaf is read back as it was written |
| TreeGrammar.SkipExactly | osmoutils/sumtree/tree.pb.go:652-729 | skipping ends at a place if and only if the bytes up to there are a field: any varint as tag, a value of its wire type, groups nested to any depth |
| TreeGrammar.ChildExactly | osmoutils/sumtree/tree.pb.go:448-565 | bytes are decoded as a child if and only if they are a sequence of fields, and the child is what its known fields say, later ones overriding earlier ones |
| TreeGrammar.NodeExactly | osmoutils/sumtree/tree.pb.go:364-447 | bytes are decoded as a node if and only if they are a sequence of fields, and its children are those of its known fields, in order |
| TreeGrammar.LeafExactly | osmoutils/sumtree/tree.pb.go:566-651 | bytes are decoded as a leaf if and only if they are a sequence of fields, whose known ones are merged into one child |
| TreeGrammar.OtherIgnored | osmoutils/sumtree/tree.pb.go:427-440 | a field that the message does not have changes nothing, wherever it stands in the sequence |
| TreeGrammar.UnknownFieldIgnored | osmoutils/sumtree/tree.pb.go:427-440 | the same in terms of bytes: the decoders go on behind it as if it were not there |
| TreeGrammar.ChildWritten | osmoutils/sumtree/tree.pb.go:244-267 | a child is written as field 1 with its index, unless that is empty, and then field 2 with its accumulation, each with the shortest length |
| TreeGrammar.NodeWritten | osmoutils/sumtree/tree.pb.go:207-227 | a node is written as one field 1 for each child, in order |

## Left out

- SumTree.Tree.GreatestBelow: an iterator end that is nil, rather than empty, means no upper bound in the store. `Parent` never asks for
  it with an empty key unless the level is empty. `PullLast` reads it as "no left neighbour", so `Remove` models the removal of the empty
  key, but not that of a nil key whose leaf is the only child of the leftmost node.
- SumTree.Tree.constructor: the store must hold a tree, because nothing in the source repairs one.
- PowApprox.PowApprox: the exponent one half, which calls a square root that is not part of the repository, and bases and exponents
  outside the documented contract.
- TreeDecode.UnmarshalChild: the library's reader of integers also takes base prefixes and underscores; the model reads decimal digits.
- AccumStore.Handle.constructor: several live handles on one accumulator, whose caches would disagree.
- Levels of the sum tree are unbounded numbers rather than 16-bit ones, and leaves and nodes are two maps rather than one store.
- `Clear`, the public iterators and the debug output of the sum tree: they add easy members only.
- The entry points of the accumulator that take an arbitrary interval value, `OverwriteAccumulatorUnsafe` and position options: their
  soundness rests on callers.
- `BinarySearchBigDec`, `CompareBigDec` and `CompareDec`: the same branches on other number types.
- `SanitizeCoins`, `Exp2`, `Ln`, `TickLog`, `CustomBaseLog`, `OrderOfMagnitude`, `SigFigRound`, `partialord`, the coin, slice and parse
  helpers.
- `osmoutils/accum/accum.pb.go`: the same shape as the tree's codec.
- The integer and decimal types of the Cosmos SDK are unbounded integers with the stated rounding; their own bit limits are modelled
  only where a property needs them.
- The application, command line, network and contract wiring, logging and gas.
