# Verified model of graced

`graced` reconstructs what a Solana swap transaction did. This project models the parts of it that compute
something over unbounded input and proves what they promise:

- **CPI trees** (`CpiTree`, `CpiTreeLaws`, `CpiPaths`): the stack machine that turns the runtime's flat list of
  inner instructions into a tree, the paths it stores in the nodes, and the walks that use those paths.
- **Route netting** (`SwapGraph`, `SwapGraphLaws`): the running-balance walk that collapses a route into one swap.
- **Direction inference** (`Routes`, `RoutesLaws`): the candidates of an undecoded leg, the forward and backward
  pass over the legs, and the whole way from routes to a net swap.
- **Balance differences** (`BalanceDiff`, `BalanceDiffLaws`): the table of balance changes per owner and mint, the
  SOL fold, and the clustering into swap events.
- **Two-tier leg identification** (`SwapInfo`, `SwapInfoLaws`): swap info from balance changes and from token
  transfers.
- **Key table and cursor** (`AccountKeys`) and **amount and path printing** (`AmountText`).

Code that mutates state is a method (or a class with fields) proved equal to a specification function; the laws
are lemmas about those functions. Functions and early-return code in the source are functions here.

## Conventions

- *Integer width.* The unchecked `+= 1` on u8 child counters, the `idx as u8` cast and the unchecked `+=` on u64
  amounts wrap, as they do in the released (`--release`) binaries; a debug build panics at the same places.
  No theorem assumes the absence of wrapping silently: it either holds with it or names the exact condition.
- *Hash maps.* Iteration order is arbitrary, so methods pick keys nondeterministically and results are described
  by predicates that admit every order. `RoutesLaws.SwapsAreDeterminedExactly` says when the order can show in the
  result of `to_swaps`, `RoutesLaws.ClearPairExactly` when it can show in one leg's candidates.
- *Inputs from outside.* Decoded token transfers, parsed balances, the parsed log forest, the curve test and
  account keys are parameters. Text that the source parses (owner, mint, amount) is an option of its parsed value.

## Where the code differs from its own description

- graced/src/swap/graph.rs:19-22 describes a reachability search and proportional flow; the code is the
  sequential balance walk modelled here.
- `is_dust` saturates both sides, so the 0.05% tolerance holds only for amounts below u64::MAX/5
  (`SwapGraphLaws.DustTestIsExact`); above it a mint that was never produced is accepted
  (`SwapGraphLaws.HugeLegIsTakenForDust`).
- graced/src/parse/util.rs:4-11 says the balance tier fails only when both accounts moved the same way; it also
  fails when one stands still (`SwapInfoLaws.HeuristicFailsExactly`, `SwapInfoLaws.OneStillVaultIsAmbiguous`), so on every
  clean swap with a zero payment (`SwapInfoLaws.TiersAgree`, `SwapInfoLaws.ZeroPaymentIsRefused`). With equal mints its direction is always a to b
  (`SwapInfoLaws.EqualMintsDisagree`, `SwapInfoLaws.ExchangingAccountsInDiff`).
- graced/src/parse/full.rs:127-130 expects an account's owner and mint to be the same before and after. When they are
  not, the earlier balance is charged to the later holder, so an account that changes hands leaves no trace
  (`BalanceDiffLaws.TotalsArePlainSumsExactly`, `BalanceDiffLaws.HandoverIsInvisible`).
- graced/src/parse/full.rs:225-229 credits the fee only when the payer already has a SOL entry
  (`BalanceDiffLaws.FeeIsExcludedExactly`, `BalanceDiffLaws.ExactRefundHidesFee`).
- With ties between token totals, `to_swaps` may give two results (`RoutesLaws.TiesMayFallEitherWay`), for a route it
  can resolve exactly when some undecoded leg lacks a clear pair (`RoutesLaws.SwapsAreDeterminedExactly`).
- graced/src/swap/graph.rs:103-105 says the input amount reflects the capital actually contributed; the sum saturates,
  so beyond u64 it does not (`SwapGraphLaws.LeastEndowment`, `SwapGraphLaws.NetInputCanSaturate`).
- A leg that is short by dust can pass whole and be refused in halves (`SwapGraphLaws.SplittingKeepsNet`,
  `SwapGraphLaws.SplittingDustCanFail`), and the order of two legs that draw on one mint can decide
  (`SwapGraphLaws.ExchangingModestLegs`, `SwapGraphLaws.ExchangingDustCanFail`).
- `format_amount` stops scaling from 20 decimals on (`AmountText.AmountReadsBack`, `AmountText.ScaledUpTo19`).

## Model

| member | source | states |
|---|---|---|
| `CpiTree.BuildIxStack` | graced/src/transaction/instruction.rs:177-263 | the stack machine, drain included, builds exactly the tree in which every instruction owns the maximal run of higher instructions after it, paths numbered by position |
| `CpiTree.OpenScope` | graced/src/transaction/instruction.rs:225-245 | pushing a node with its path chosen now, before its siblings are attached, never changes the tree that the state will become |
| `CpiTree.CloseScope` | graced/src/transaction/instruction.rs:197-223 | neither does popping a frame that cannot be the next instruction's parent |
| `CpiTreeLaws.ListToTreeToList` | graced/src/transaction/instruction.rs:49-57 | flattening the built tree gives back every list exactly, for any mix of known and missing heights |
| `CpiTreeLaws.TreeToListToTree` | graced/src/transaction/instruction.rs:177-263 | listing a tree in preorder with height = depth + 1 and rebuilding gives back the same tree if and only if its stored paths were the u8 positions of its nodes |
| `CpiTreeLaws.ParentIsNearestEnclosing` | graced/src/transaction/instruction.rs:197-223 | a node's parent is the nearest earlier instruction of smaller height with no missing height in between, else the root; nodes without height are childless root children |
| `CpiTreeLaws.PathLengthIsStackHeight` | graced/src/transaction/instruction.rs:225-236 | path length equals stack height at every node exactly when the trace starts at 2, stays at 2 or above and rises by at most one |
| `CpiTreeLaws.ForestIsNumbered` | graced/src/transaction/instruction.rs:225-236 | every node's stored path is its parent's path and its true child position as a u8, though it was stored before the siblings existed |
| `CpiPaths.Trace` | graced/src/transaction/instruction.rs:149-156 | the loop finds exactly what descending by child index finds, and None when an index is out of range |
| `CpiPaths.TraceIxCall` | graced/src/util/logs.rs:101-114 | the same for the walk over the log forest, which takes the root index from the path |
| `CpiPaths.DescendExactly` | graced/src/transaction/instruction.rs:149-156 | descending finds a node exactly when the path's indices, taken one after the other, lead to it; an index out of range finds nothing |
| `CpiPaths.DescendCallsExactly` | graced/src/util/logs.rs:101-114 | the same in a log forest of any shape, truncated ones included |
| `CpiPaths.RootsAreNumbered` | graced/src/transaction.rs:77-88 | the forest of root instructions is numbered by the index as a u8 at the top and by child positions below |
| `CpiPaths.RootHoldsRecorded` | graced/src/transaction.rs:77-88 | root i is the ith instruction with path [i as u8]; below it are exactly the instructions recorded under that key, in order and each under its nearest enclosing one, none when the key is absent |
| `CpiPaths.TraceReachesNode` | graced/src/transaction/instruction.rs:149-156 | a node's stored path is the root index and its position with each index as a u8; it is the true position exactly while the indices are below 256, as in every tree with at most 256 children per node, and then tracing the root by it reaches that very node |
| `CpiPaths.TraceFindsAskedPath` | graced/src/transaction/instruction.rs:149-156 | whatever tracing finds, in any tree and for any path, stores exactly the path it was asked for |
| `CpiPaths.LogsOfNode` | graced/src/util/logs.rs:89-114 | a node whose position has indices below 256 finds its own call, by its stored path, in a log forest of the same shape |
| `CpiPaths.PathsAreDistinct` | graced/src/transaction.rs:77-88 | no two nodes of a transaction share a path exactly when no level has more than 256 instructions |
| `SwapGraph.NetSwap` | graced/src/swap/graph.rs:118-167 | the loop over the balance map computes the specified walk, errors included |
| `SwapGraphLaws.NetFailsExactly` | graced/src/swap/graph.rs:118-154 | netting fails exactly on an empty route, or at the first leg that takes more of a mint other than the entry mint than earlier legs left, by more than dust; the error names that mint and what is missing |
| `SwapGraphLaws.Conservation` | graced/src/swap/graph.rs:126-166 | on success, for every mint, consumed plus final balance equals produced plus the gap: absorbed dust, or at the entry mint the net input before saturation; the output amount is the exit mint's final balance |
| `SwapGraphLaws.WalkConserves` | graced/src/swap/graph.rs:129-156 | the same without any bound on amounts, counting each wrap of the unchecked addition as 2^64 |
| `SwapGraphLaws.LeastEndowment` | graced/src/swap/graph.rs:118-167 | the returned input amount is the least starting balance of the entry mint from which a replay never runs short, exactly when a balance of u64::MAX covers the route's prefix sums; otherwise it saturates |
| `SwapGraphLaws.AffordsIsPrefixSums` | graced/src/swap/graph.rs:129-156 | a replay from a starting balance never runs short exactly when, in plain prefix sums, no leg takes more of the entry mint than that balance and earlier legs left |
| `SwapGraphLaws.NetInputCanSaturate` | graced/src/swap/graph.rs:134-137 | a two-leg route whose returned input amount does not pay for it |
| `SwapGraphLaws.SolventRoutesNet` | graced/src/swap/graph.rs:129-154 | the walk succeeds without absorbing dust exactly when, in plain prefix sums, no leg takes more of a mint other than the entry mint than earlier legs left |
| `SwapGraphLaws.IsDustExactly` | graced/src/swap/graph.rs:75-79 | the saturating test accepts the exact ratio, or two saturated sides |
| `SwapGraphLaws.DustTestIsExact` | graced/src/swap/graph.rs:75-79 | the saturating test is the exact 0.05% test for every possible shortfall just for references below u64::MAX/5 |
| `SwapGraphLaws.DustIsBounded` | graced/src/swap/graph.rs:132-151 | over a whole successful route, the dust absorbed at a mint whose consuming legs are below u64::MAX/5 is at most 0.05% of what the route consumed of it |
| `SwapGraphLaws.RouteDustIsBounded` | graced/src/swap/graph.rs:132-151 | the same for all such mints of the route together |
| `SwapGraphLaws.HugeLegIsTakenForDust` | graced/src/swap/graph.rs:143-147 | without that bound a leg consuming a mint the route never produced is accepted |
| `SwapGraphLaws.MatchedChainNets` | graced/src/swap/graph.rs:129-166 | a chain whose legs agree on mint and amount nets to its endpoints, for any length and any repeated mints and cycles |
| `SwapGraphLaws.SplittingKeepsNet` | graced/src/swap/graph.rs:129-156 | splitting a leg between two different mints keeps the result, errors included, when the leg is funded or its halves pass the dust test the way the whole does; for a route that nets, exactly then |
| `SwapGraphLaws.SplitStepExactly` | graced/src/swap/graph.rs:129-156 | at one leg and for every amount, exactly when two halves leave what the whole leaves or are refused with the same error |
| `SwapGraphLaws.SplittingModestLeg` | graced/src/swap/graph.rs:129-156 | for a leg below u64::MAX/5, in plain arithmetic: exactly when the leg is funded, the second half consumes nothing, or the first half is funded and the gap is at most 0.05% of the second |
| `SwapGraphLaws.MergingKeepsNet` | graced/src/swap/graph.rs:129-156 | merging two halves of a leg never changes a route that nets, for every amount and whatever dust was absorbed in them |
| `SwapGraphLaws.SplittingDustCanFail` | graced/src/swap/graph.rs:143-154 | a route that nets with a leg leaning on dust and fails with that leg split |
| `SwapGraphLaws.ExchangingKeepsNet` | graced/src/swap/graph.rs:129-156 | exchanging adjacent interior legs, neither consuming the other's output, keeps the result, errors included, when they are funded; for a route that nets, exactly when the walk lets both through in the other order |
| `SwapGraphLaws.ExchangingDifferentInputs` | graced/src/swap/graph.rs:129-156 | in a route that nets, such legs that draw on different mints can always be exchanged |
| `SwapGraphLaws.ExchangingModestLegs` | graced/src/swap/graph.rs:129-156 | for legs below u64::MAX/5 in a route that nets, in plain arithmetic: exactly when they draw on different mints or on the entry mint, both are funded, the first consumes nothing, or the second is funded alone and the gap is at most 0.05% of the first |
| `SwapGraphLaws.ExchangingDustCanFail` | graced/src/swap/graph.rs:143-154 | a route that nets and fails with its two middle legs exchanged |
| `Routes.CandidatesFromTransfers` | graced/src/parse/aggregator/mod.rs:254-276 | yields two mints whose totals no other mint exceeds, in descending order, for any hash order; the unknown-mint error exactly when some transfer names no mint, the ambiguity error exactly when all name one and no two differ |
| `Routes.SortedTotals` | graced/src/parse/aggregator/mod.rs:260-261 | every mint is listed once with its total, largest first |
| `Routes.ForwardPass` | graced/src/parse/aggregator/mod.rs:178-194 | the in-place pass orients legs left to right, dropping the held mint at a leg it cannot orient |
| `Routes.BackwardPass` | graced/src/parse/aggregator/mod.rs:196-212 | the in-place pass orients what is left from right to left |
| `Routes.ToSwaps` | graced/src/parse/aggregator/mod.rs:169-222 | gives one of the results that the two passes give on some admissible candidates, or the error of the first leg without candidates |
| `RoutesLaws.FirstBadLegDecides` | graced/src/parse/aggregator/mod.rs:169-176 | the error is that of the first leg whose transfers name no mint or no two mints, whatever the other legs are; without such a leg only an unresolved leg can fail |
| `RoutesLaws.EarlierChainDecides` | graced/src/parse/aggregator/mod.rs:178-212 | an undecoded leg is oriented along the chain from an earlier decoded leg whenever there is one, and otherwise towards the leg after it |
| `RoutesLaws.TotalIsSumModulo` | graced/src/parse/aggregator/mod.rs:255-259 | a mint's total is the sum of its transfers modulo 2^64 |
| `Routes.RoutesSwap` | graced/src/parse/aggregator/mod.rs:100-114 | nets one of those results; the shortcut for fully decoded routes agrees with the passes |
| `RoutesLaws.NettedExactly` | graced/src/parse/aggregator/mod.rs:100-114 | an error before netting is passed on, one of netting is wrapped, and an answer is the net of swaps that the route may resolve to |
| `RoutesLaws.DecodedRouteNets` | graced/src/parse/aggregator/mod.rs:100-114 | a fully decoded route nets to the net of its legs, an empty one to the wrapped empty-route error |
| `RoutesLaws.OrientedLegsAreLinked` | graced/src/parse/aggregator/mod.rs:178-212 | decoded legs are untouched; every other leg is an orientation of its candidates linked to the leg before or after it |
| `RoutesLaws.SwapsAreSound` | graced/src/parse/aggregator/mod.rs:169-222 | the same for whole routes, with candidates dominant in the leg's transfers |
| `RoutesLaws.ForwardKnownExactly` | graced/src/parse/aggregator/mod.rs:178-194 | the forward pass knows a leg exactly when an unbroken chain of shared mints leads to it from an earlier decoded leg |
| `RoutesLaws.UnresolvedExactly` | graced/src/parse/aggregator/mod.rs:214-222 | the failure names leg i exactly when i is the least leg that no chain reaches from a leg known after the forward pass; success exactly when all are reached |
| `RoutesLaws.HiddenDirectionsAreRecovered` | graced/src/parse/aggregator/mod.rs:169-252 | a connected chain with any subset of its directions hidden is recovered exactly if and only if some leg stays known; otherwise leg 0 is unresolved |
| `RoutesLaws.ClearPairExactly` | graced/src/parse/aggregator/mod.rs:260-275 | an undecoded leg's candidates are the same in every hash order exactly when every third total is strictly below the second |
| `RoutesLaws.SwapsAreDeterminedExactly` | graced/src/parse/aggregator/mod.rs:169-222 | while a route can be resolved, its result is the only one in every hash order exactly when every undecoded leg has a clear pair |
| `RoutesLaws.ClearPairsDetermineSwaps` | graced/src/parse/aggregator/mod.rs:169-222 | with clear pairs errors do not depend on hash order either |
| `RoutesLaws.TiesMayFallEitherWay` | graced/src/parse/aggregator/mod.rs:260-275 | with three equal totals the same route may come out in two ways |
| `RoutesLaws.ChainNetsEndToEnd` | graced/src/parse/aggregator/mod.rs:100-114 | a matched chain whose legs are decoded or witnessed by transfers (with smaller totals of other mints allowed) nets to first input and last output if and only if some leg is decoded, however ties fall |
| `BalanceDiff.IndexBalances` | graced/src/parse/full.rs:109-116 | a snapshot is indexed by account, the last balance of an index winning |
| `BalanceDiffLaws.IndexedIsLastListed` | graced/src/parse/full.rs:109-116 | the index holds exactly the last listed balance of every account index |
| `BalanceDiff.DeltaTable.Add` | graced/src/parse/full.rs:168-176 | adds to the owner's entry of the mint or starts one; no other entry changes |
| `BalanceDiff.DeltaTable.AddTokenDeltas` | graced/src/parse/full.rs:118-177 | every entry is the total over that owner's accounts of the mint, there is an entry exactly where an account changed, and failure is exactly an unparseable shown owner |
| `BalanceDiffLaws.BadOwnerExactly` | graced/src/parse/full.rs:127-155 | refusal read off the listed balances: an account's later balance, or its earlier one when there is no later, names an owner that is not a key |
| `BalanceDiffLaws.DecimalsAreListed` | graced/src/parse/full.rs:131-176 | an entry's decimals are those of a listed account that changed for its owner and mint |
| `BalanceDiff.DeltaTable.AddLamportDeltas` | graced/src/parse/full.rs:179-201 | adds to each owner's SOL entry the lamport total that `BalanceDiffLaws.LamportTotalIsDifference` reads off the metadata, and nothing else; a new entry gets 9 decimals |
| `BalanceDiffLaws.LamportTotalIsDifference` | graced/src/parse/full.rs:179-200 | an owner's lamport total is the sum of the owner's balances after minus the sum of those before, pairing balances with account keys as far as both lists go |
| `BalanceDiff.DeltaTable.ComputeRawDeltas` | graced/src/parse/full.rs:96-203 | the table holds the raw totals, with an entry exactly for what moved |
| `BalanceDiffLaws.MovedExactly` | graced/src/parse/full.rs:123-201 | an entry exists exactly where a listed token account changed for the owner and mint, or a listed key of the owner had other lamports after than before |
| `BalanceDiff.DeltaTable.MergeSolAndWsol` | graced/src/parse/full.rs:220-252 | every total is preserved except the fee credited to an existing SOL entry of the payer |
| `BalanceDiff.DeltaTable.ClusterIntoSwaps` | graced/src/parse/full.rs:257-295 | one event for every owner with both a negative and a positive total and no other, listing exactly those totals, for any hash order |
| `BalanceDiff.DetectSwaps` | graced/src/parse/full.rs:58-67 | the three steps together, with both error cases exact |
| `BalanceDiffLaws.TokenTotalChargesLaterHolder` | graced/src/parse/full.rs:126-177 | for any snapshots, a total is the change in holding by account index, plus what was given up with its account, minus what was taken over with one |
| `BalanceDiffLaws.TotalsArePlainSumsExactly` | graced/src/parse/full.rs:123-200 | with unique account indices, a total is the plain sum over the metadata (listed balances after minus before, and for SOL lamports after minus before) exactly when what the owner took over and gave up with accounts that changed hands is equal |
| `BalanceDiffLaws.TotalsArePlainSums` | graced/src/parse/full.rs:123-200 | in particular when no account with a balance changed hands |
| `BalanceDiffLaws.HandoverIsInvisible` | graced/src/parse/full.rs:127-149 | an account that changes owner with its balance changes both holdings and neither total |
| `BalanceDiffLaws.OrderMattersOnlyForConflicts` | graced/src/parse/full.rs:109-116 | reordering a snapshot never matters exactly when no two different balances share an index |
| `BalanceDiffLaws.EventsAreTraders` | graced/src/parse/full.rs:263-284 | an owner gets an event exactly when some total is negative and some positive, marked as mediated exactly when off the curve |
| `BalanceDiffLaws.LegsAreTotals` | graced/src/parse/full.rs:266-275 | an event lists a mint and amount exactly for the trader's total of that mint |
| `BalanceDiffLaws.LegDecimalsAreListed` | graced/src/parse/full.rs:266-275 | a leg's decimals are 9 for SOL and otherwise those of a listed account that changed for the trader |
| `BalanceDiffLaws.FeeIsExcludedExactly` | graced/src/parse/full.rs:225-229 | the merged table holds every change apart from the fee exactly when some account of the payer moved in SOL, or the fee is zero |
| `BalanceDiffLaws.ExactRefundHidesFee` | graced/src/parse/full.rs:225-229 | a payer whose lamports end where they began shows no SOL, though apart from the fee the change was the fee |
| `SwapInfo.FindIndexForWallet` | graced/src/util/balances.rs:97-102 | the first position of the key, None exactly when it is absent |
| `SwapInfo.FindBalance` | graced/src/util/balances.rs:80-95 | a listed balance of that account index, None exactly when there is none |
| `SwapInfoLaws.FindsFirstListed` | graced/src/util/balances.rs:80-90 | it is the first one listed |
| `SwapInfoLaws.SnapshotsExactly` | graced/src/util/balances.rs:68-102 | an account's balance before and after are the first ones listed under its first position among static, writable and readonly keys; none when it is not a key |
| `SwapInfoLaws.DifferenceExactly` | graced/src/util/balances.rs:220-228 | the difference in all four presence cases: a missing side counts zero, two missing sides and amounts of 2^63 or more are errors, the subtraction never overflows |
| `SwapInfoLaws.NamesExactly` | graced/src/util/balances.rs:240-260 | the earlier snapshot decides the mint even when its own does not parse; the program falls back to the later snapshot when the earlier names none |
| `SwapInfoLaws.BalanceLegExactly` | graced/src/parse/util.rs:160-171 | an account's leg read off its snapshots, with the errors in the order mint, program, amounts |
| `SwapInfoLaws.BalanceTierExactly` | graced/src/parse/util.rs:105-147 | the whole balance tier read off the listed balances, for accounts in both snapshots, one or none: errors of a before b, the ambiguity errors with their payloads, and the reported swap |
| `SwapInfoLaws.FoundLegIsLargest` | graced/src/parse/util.rs:216-225 | a leg is found exactly when a transfer matches, and no matching transfer is larger |
| `SwapInfoLaws.FoundLegIsLastLargest` | graced/src/parse/util.rs:221-224 | on a tie it is the last of the largest |
| `SwapInfoLaws.NoOpinionExactly` | graced/src/parse/util.rs:260-302 | the transfer tier answers none exactly when there are fewer than two transfers, none touches the two accounts on the user's side, the last of the largest that do is not signed by the user, or none moves the other account on the other side |
| `SwapInfoLaws.TransferLegExactly` | graced/src/parse/util.rs:327-347 | a leg read off the transfer and the listed balances: the transfer's own mint wins, the program comes from the snapshots |
| `SwapInfoLaws.TransferTierExactly` | graced/src/parse/util.rs:281-325 | every other answer of the transfer tier read off the transfers and the listed balances, errors of the user's leg before those of the counterpart's |
| `SwapInfoLaws.CastKeepsAmount` | graced/src/parse/util.rs:342-346 | an amount survives the cast to i64 and back exactly up to 2^63 |
| `SwapInfoLaws.TransfersFindCleanSwap` | graced/src/parse/util.rs:260-347 | the transfer tier reports a clean swap's accounts, mints, amounts, programs and direction, with any unrelated transfers around it and any amounts, zero included |
| `SwapInfoLaws.DiffFindsCleanSwap` | graced/src/parse/util.rs:105-147 | the balance tier reports the same, with its direction forced to a to b when the mints are equal, and refuses a zero payment |
| `SwapInfoLaws.TiersAgree` | graced/src/parse/util.rs:105-147 | on a clean swap the transfer tier succeeds and the balance tier does exactly when the payment is positive; they agree on everything, direction included, exactly when moreover the mints differ or the user's leg is account a |
| `SwapInfoLaws.EqualMintsDisagree` | graced/src/parse/util.rs:138-139 | a clean swap between two vaults of one mint on which the two directions differ |
| `SwapInfoLaws.ZeroPaymentIsRefused` | graced/src/parse/util.rs:117-133 | a clean swap with a zero payment, reported by the transfer tier and refused by the balance tier |
| `SwapInfoLaws.HeuristicFailsExactly` | graced/src/parse/util.rs:117-136 | exactly which pairs of balance changes the balance tier refuses |
| `SwapInfoLaws.OneStillVaultIsAmbiguous` | graced/src/parse/util.rs:130-133 | one vault paying out while the other stands still is refused |
| `SwapInfoLaws.ExchangingAccountsFlips` | graced/src/parse/util.rs:284-296 | naming the two accounts the other way round only flips the transfer tier's direction, on every input |
| `SwapInfoLaws.ExchangingAccountsInDiff` | graced/src/parse/util.rs:130-146 | in the balance tier it flips the direction exactly when the mints differ |
| `SwapInfoLaws.TransfersIgnoreAmounts` | graced/src/parse/util.rs:252-347 | the transfer tier depends on the snapshots' mints and programs only, never on their amounts |
| `AccountKeys.AccountKeys.Get` | graced/src/transaction/keys.rs:57-74 | equals indexing static, then writable, then readonly keys, for every index |
| `AccountKeys.AccountKeys.Len` | graced/src/transaction/keys.rs:91-97 | the number of those keys |
| `AccountKeys.AddressExactly` | graced/src/util/accounts.rs:100-128 | a slot reads the key of the segment its index falls into, static before writable before readonly; past all three and past the last slot it is an error with the table's or the instruction's size |
| `AccountKeys.InstructionAccounts.New` | graced/src/util/accounts.rs:24-43 | a fresh cursor at slot 0, or the error for a program index out of range |
| `AccountKeys.InstructionAccounts.Next` | graced/src/util/accounts.rs:117-128 | the next key or its error, moving past the slot either way, and never past the end |
| `AccountKeys.InstructionAccounts.NextAddress` | graced/src/util/accounts.rs:80-84 | the same with the end as an error |
| `AccountKeys.InstructionAccounts.NextOptionalAccount` | graced/src/util/accounts.rs:89-92 | the program's own id stands for an omitted account |
| `AccountKeys.InstructionAccounts.RemainingAccounts` | graced/src/util/accounts.rs:95-97 | all unread keys in order, or the first bad slot's error with the cursor just past it |
| `AccountKeys.InstructionAccounts.Peek` | graced/src/util/accounts.rs:100-111 | the key or error of the slot that many positions ahead, without moving |
| `AccountKeys.InstructionAccounts.RemainingLen` | graced/src/util/accounts.rs:71-73 | the least number of reads that takes the cursor to the end |
| `AccountKeys.PeekPredictsRead` | graced/src/util/accounts.rs:80-111 | peeking k ahead gives exactly the key or error of the read after k reads; the cursor never passes the end |
| `AmountText.PrintCommas` | cli/src/main.rs:216-226 | the right-to-left loop groups the digits in threes |
| `AmountText.StripGroup` | cli/src/main.rs:216-226 | dropping the commas gives back the digits |
| `AmountText.GroupsOfThree` | cli/src/main.rs:219-224 | counted from the right exactly every fourth character is a comma and none leads, so every group after the first has three digits |
| `AmountText.NoLeadingZero` | cli/src/main.rs:216-217 | only zero is printed with a leading zero |
| `AmountText.FormatAmount` | cli/src/main.rs:230-250 | prints the specified text, with trailing zeros of the fraction dropped |
| `AmountText.AmountReadsBack` | cli/src/main.rs:230-250 | reading the text as a decimal scaled by 10^decimals gives back the raw amount exactly while 10^decimals fits in a u64 (or the amount is zero) |
| `AmountText.ScaledText` | cli/src/main.rs:238-250 | the exact text while 10^decimals fits: the whole part with commas and, unless the rest is zero, a point and at most that many digits worth the rest, the last of them not zero |
| `AmountText.UnscaledText` | cli/src/main.rs:231-236 | without decimals and from 20 decimals on the text is the raw amount with commas |
| `AmountText.ScaledUpTo19` | cli/src/main.rs:234-236 | that is, for decimals up to 19 |
| `AmountText.AmountsPrintApart` | cli/src/main.rs:230-250 | at the same decimals, any decimals, different raw amounts print differently |
| `AmountText.DisplayPath` | graced/src/transaction/instruction.rs:96-107 | prints the indices with dots between them |
| `AmountText.PathPieces` | graced/src/transaction/instruction.rs:96-107 | between the dots of a printed path are the decimal texts of its indices, in order |
| `AmountText.PathsPrintApart` | graced/src/transaction/instruction.rs:96-107 | different paths print differently |

## Left out

- RPC and geyser conversion, command-line handling and output layouts: field copying and network input.
- The per-program dex and aggregator parsers and the program tables: fixed account positions and discriminators.
- SPL, Borsh and base64 decoding and the log parser: foreign code; their results are inputs here.
- `derive_amount` in graced/src/util/balances.rs: floating point over UI amounts; the model takes raw integer amounts.
- `is_on_curve`: a library test, passed in as a function.
- i128 overflow of summed balance changes: needs sums beyond 2^127, so the model's totals are unbounded integers.
- usize overflow of key-table lengths and cursor offsets: the model uses natural numbers.
- Missing metadata and undecodable transactions in `compute_raw_deltas`: the model starts from decoded metadata.
- Reference counting and lazy log loading: sharing only.
- AddTokenDeltas: visits account indices from 0 to 255 and skips absent ones, where the source sorts and deduplicates the keys of the two maps.
- SortedTotals: inserts each total in place of a library sort; the order of equal totals stays arbitrary either way.
- BuildIxStack: heights are natural numbers, where the source has u32; they are only compared.
