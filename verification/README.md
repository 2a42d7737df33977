# Verification of the arbitrage system

This project models the parts of the repository on which a trade depends, and proves what they promise:

- **The pool contract** (`Evm`, `SquareRoot`, `PairModel`, `Pair`): a Uniswap v2 pair with its reserves, liquidity shares,
  price accumulators, protocol fee and lock. `Pair.UniswapV2Pair` updates its storage step by step as the contract does;
  `PairModel` gives each external call as a function from state to state or to the reason of a revert, and the class is
  proved to do exactly that, including the undoing of a reverted call. A flash swap's callee may change any token balance,
  call the pair back, catch failures and give up.
- **What every run of the pool keeps** (`PairInvariants`, `PoolValue`, `ProtocolFee`, `MintBurn`,
  `Receipts`, `Success`, `Oracle`): a run is any
  sequence of calls, by any callers at any times with any fee setting, interleaved with token transfers. Shares add up, the
  reserves are covered, the value of a share never falls, and the oracle measures the time-weighted mean price. Every balance
  after a call is stated, and exactly when calls succeed.
- **The executor contract** (`Quote`, `SwaperModel`, `SwaperTheorem`, `Swaper`): it quotes a route from the reserves and then
  performs the hops. Once the quote passes, every hop is accepted.
- **The cycle finder** (`Walks`, `SwapGraph`) and the textbook search it grew out of (`BellmanFord`), over exact weights and
  any order of edges.
- **Pricing and sizing** (`Protocol`, `Pricing`, `TradeSizing`, `Arbitrage`, `QuoteRefinement`): a path is one virtual pool;
  the graph built from the store yields only paths that pay; the on-chain quote refines the off-chain one.
- **Agreement of data** (`RouteCodec`, `Storage`, `FileData`, `DataKeeper`): the packed route, the store that goroutines feed
  in any order, and its text file.
- **From end to end** (`EndToEnd`): a cycle that the monitor finds is decoded by the executor as it was sent, and the account
  gains exactly the integer quote, which is the monitor's own figure up to a stated rounding.

The contracts follow the Uniswap v2 Core whitepaper: sections 2.2 (oracle), 2.3 (flash swaps), 2.4 (protocol fee), 3.2.1 (the
K check), 3.2.2 (`sync` and `skim`) and 3.4 (initial supply).

`dafny verify dfyconfig.toml` checks the whole project.

## How to read the main results

- *Value of a share.* `SettledK` is `kLast` where it is recorded and the product of the reserves otherwise: the part of k that
  is no longer to be shared with the protocol. `ProtocolFee.RunKeepsShareValue` says that `SettledK / supply^2` never falls,
  over any run. `PoolValue.CallKeepsValue` is the same for one call, measured after the fee is minted.
- *The first deposit.* A comment in the contract leaves safety checks to the caller, and one is really needed: while nothing is
  minted, `sync` can book tokens into the reserves, and then minting and at once burning can pay out more than was deposited.
  `MintBurn.FirstDepositCanProfit` gives numbers; `MintBurn.MintThenBurnNeverProfits` gives the exact condition, which uses
  only the reserves and the two deposits. All later deposits are safe.
- *The quoted route.* With an empty reserve on the paying-in side the quote is the whole other reserve, which the pair refuses
  (`SwaperTheorem.EmptyReserveStopsTheRoute`). `SwaperTheorem.QuotedRouteGoesThrough` therefore states success if and only if
  `Fits`: no such empty reserve, and no balance that leaves 112 bits.
- *The packed route.* The decoder keeps the number of hops in one byte, so `n` hops are read as `n % 256`;
  `RouteCodec.DecodeUndoesEncode` says so for every `n`.
- *The cycle finder.* Only soundness is claimed. When it returns nothing, no edge lowers the source's own distance, or ten steps
  back did not lead to the source.

## Model

| member | source | states |
|---|---|---|
| `SquareRoot.Sqrt` | swaper/contracts/Pair.sol:477-488 | the loop ends with the integer square root, and no intermediate value leaves 256 bits |
| `SquareRoot.ISqrtUnique` | swaper/contracts/Pair.sol:477-488 | `z * z <= y < (z + 1) * (z + 1)` determines the root |
| `SquareRoot.BabylonianStepFromAbove` | swaper/contracts/Pair.sol:481-484 | no step of the iteration falls below the root |
| `SquareRoot.BabylonianStop` | swaper/contracts/Pair.sol:482-485 | when a step does not decrease, the candidate is at most the root |
| `Pair.TokenLedger.Transfer` | swaper/contracts/Pair.sol:247-250 | an exact transfer, or a revert when the balance is too small |
| `Pair.UniswapV2Pair.constructor` | swaper/contracts/Pair.sol:264-273 | a new pair has no reserves, no shares and is unlocked |
| `Pair.UniswapV2Pair.MintTo` | swaper/contracts/Pair.sol:158-162 | shares are created for one holder, with overflow checks |
| `Pair.UniswapV2Pair.BurnFrom` | swaper/contracts/Pair.sol:164-168 | shares of one holder are destroyed, or a revert on underflow |
| `Pair.UniswapV2Pair.MoveBetween` | swaper/contracts/Pair.sol:175-179 | shares move, also when sender and receiver are the same |
| `Pair.UniswapV2Pair.UpdateReserves` | swaper/contracts/Pair.sol:276-289 | the 112-bit check, the wrapping elapsed time, both accumulators and the new reserves |
| `Pair.UniswapV2Pair.MintProtocolFee` | swaper/contracts/Pair.sol:292-310 | the fee shares, the reset of `kLast` when the fee is off, and which of the two happened |
| `Pair.UniswapV2Pair.MintDeposit` | swaper/contracts/Pair.sol:321-327 | the value of a deposit, and the locked minimum on the first one |
| `Pair.UniswapV2Pair.MintBody` | swaper/contracts/Pair.sol:313-334 | the whole of `mint`, with every revert |
| `Pair.UniswapV2Pair.MintRest` | swaper/contracts/Pair.sol:321-333 | `mint` after the fee |
| `Pair.UniswapV2Pair.BurnBody` | swaper/contracts/Pair.sol:337-359 | the whole of `burn`, with every revert |
| `Pair.UniswapV2Pair.SwapBody` | swaper/contracts/Pair.sol:362-390 | the whole of `swap`: optimistic transfers, callback, K check, update |
| `Pair.UniswapV2Pair.CallBack` | swaper/contracts/Pair.sol:375 | the callee runs while the pair is locked and may call it back |
| `Pair.UniswapV2Pair.SkimBody` | swaper/contracts/Pair.sol:393-398 | what exceeds the reserves is sent away |
| `Pair.UniswapV2Pair.SyncBody` | swaper/contracts/Pair.sol:401-403 | the reserves become the balances |
| `Pair.UniswapV2Pair.TransferFromBody` | swaper/contracts/Pair.sol:191-197 | an unlimited approval is not consumed, any other one is |
| `Pair.UniswapV2Pair.Dispatch` | swaper/contracts/Pair.sol:181-211 | each external function runs its own body |
| `Pair.UniswapV2Pair.Run` | swaper/contracts/Pair.sol:233-239 | a call succeeds as specified or leaves storage and balances as they were |
| `PairInvariants.InitialIsValid` | swaper/contracts/Pair.sol:264-273 | a new pair satisfies the invariant |
| `PairInvariants.MoveSharesValid` | swaper/contracts/Pair.sol:175-179 | a transfer keeps the sum of shares and never takes from the zero address |
| `PairInvariants.ShareCallKeeps` | swaper/contracts/Pair.sol:181-211 | `transfer`, `transferFrom`, `approve` and `permit` touch shares and approvals only |
| `PairInvariants.LockedCallKeeps` | swaper/contracts/Pair.sol:233-239 | while the pair is locked, the guarded functions revert and the others move shares at most |
| `PairInvariants.CalleeIsShutOut` | swaper/contracts/Pair.sol:375 | whatever a callee does, reserves, supply, `kLast` and oracle are as before |
| `PairInvariants.MintFeeEffect` | swaper/contracts/Pair.sol:292-310 | the fee changes supply, shares and `kLast` only, mints nothing on an empty supply and keeps shares valid |
| `PairInvariants.MintEffect` | swaper/contracts/Pair.sol:313-334 | reserves follow balances, supply grows by fee, shares and, once, the locked minimum; `kLast` is k or 0 |
| `PairInvariants.BurnEffect` | swaper/contracts/Pair.sol:337-359 | exact payouts, reserves, supply and `kLast`, also when the pair pays itself |
| `PairInvariants.SwapEffect` | swaper/contracts/Pair.sol:362-390 | outputs stay below the reserves, the K check held, supply and `kLast` are unchanged |
| `PairInvariants.SkimEffect` | swaper/contracts/Pair.sol:393-398 | the pair is unchanged and, unless it skims to itself, its balances equal its reserves |
| `PairInvariants.SyncEffect` | swaper/contracts/Pair.sol:401-403 | reserves equal balances and shares are unchanged |
| `PairInvariants.CallKeepsValid` | swaper/contracts/Pair.sol:158-211 | every external call keeps the invariant, and the zero address loses no share |
| `PairInvariants.StepKeepsValid` | swaper/contracts/Pair.sol:313-403 | so does every step of a run |
| `PairInvariants.RunKeepsValid` | swaper/contracts/Pair.sol:158-211 | in every reachable state the supply is the sum of all share balances and the reserves are covered |
| `PairInvariants.FirstMintHappensOnce` | swaper/contracts/Pair.sol:321-325 | once anything was minted, every later state has 1000 locked shares, so the supply is never empty again |
| `PoolValue.CheckKGrows` | swaper/contracts/Pair.sol:379-386 | the K check passes only if the product of the reserves strictly grows |
| `PoolValue.SwapGrowsK` | swaper/contracts/Pair.sol:362-390 | every successful swap strictly increases k, whatever the callee did |
| `PoolValue.MintKeepsValue` | swaper/contracts/Pair.sol:313-334 | a later `mint` does not lower k per squared share, in spite of both floors |
| `PoolValue.BurnKeepsValue` | swaper/contracts/Pair.sol:337-359 | neither does `burn` |
| `PoolValue.OtherCallsKeepK` | swaper/contracts/Pair.sol:362-403 | all other calls keep the supply and never lower k |
| `PoolValue.CallKeepsValue` | swaper/contracts/Pair.sol:313-403 | no call lowers k per squared share, counting the supply after the fee |
| `ProtocolFee.FeeIsOneSixthOfGrowth` | swaper/contracts/Pair.sol:297-305 | the fee is the largest number of shares within one sixth of root growth, and holders keep at least their value |
| `ProtocolFee.FeeKeepsBacking` | swaper/contracts/Pair.sol:297-305 | with both roots and the fee rounded, the fee still takes no more than the growth of k itself, if each share is backed by a unit of root k |
| `ProtocolFee.FeeDueKeepsValue` | swaper/contracts/Pair.sol:297-305 | the same for the roots and the fee as `_mintFee` computes them |
| `ProtocolFee.FeeKeepsSettledValue` | swaper/contracts/Pair.sol:292-310 | the same for `_mintFee` in any state that is backed |
| `ProtocolFee.MintKeepsBacked` | swaper/contracts/Pair.sol:313-334 | `mint` keeps the pool backed and the value of a share |
| `ProtocolFee.BurnKeepsBacked` | swaper/contracts/Pair.sol:337-359 | so does `burn` |
| `ProtocolFee.StepKeepsBacked` | swaper/contracts/Pair.sol:292-403 | so does every step |
| `ProtocolFee.InitialIsBacked` | swaper/contracts/Pair.sol:264-273 | a new pair is backed |
| `ProtocolFee.RunKeepsShareValue` | swaper/contracts/Pair.sol:292-403 | over every run, with the fee switched at will, the value of a share never falls |
| `ProtocolFee.RunWithoutLiquidityGrowsK` | swaper/contracts/Pair.sol:362-403 | a run without `mint` and `burn` never lowers k, and raises it if one swap succeeds |
| `ProtocolFee.SwapsCannotDrainBothSides` | swaper/contracts/Pair.sol:362-390 | such a run never ends with both reserves at or below where they were |
| `Receipts.FeeReceipt` | swaper/contracts/Pair.sol:304 | the fee goes to `feeTo` and to nobody else |
| `Receipts.MintReceipts` | swaper/contracts/Pair.sol:313-334 | every balance of shares after `mint`: shares to `to`, fee to `feeTo`, locked minimum to the zero address |
| `Receipts.MintCreditsFairShare` | swaper/contracts/Pair.sol:321-327 | a later deposit is credited the largest number of shares that both sides cover, the first one the root of its product |
| `Receipts.BurnReceipts` | swaper/contracts/Pair.sol:337-359 | every balance of shares and tokens after `burn` |
| `Receipts.SkimReceipts` | swaper/contracts/Pair.sol:393-398 | every balance of tokens after `skim` |
| `Receipts.SwapPaysFirst` | swaper/contracts/Pair.sol:362-375 | what `swap` demands, that it pays `to` before the callee runs, and that what the callee leaves stays |
| `Receipts.TransferOutcome` | swaper/contracts/Pair.sol:187-190 | `transfer` succeeds exactly for what the sender has, and every balance after it |
| `Receipts.TransferFromOutcome` | swaper/contracts/Pair.sol:191-197 | `transferFrom` succeeds exactly with balance and approval, and every balance and approval after it |
| `Receipts.ApprovalOutcome` | swaper/contracts/Pair.sol:182-211 | when `approve` and `permit` succeed, and every approval after them |
| `Success.FeeNeverFails` | swaper/contracts/Pair.sol:292-310 | in a reachable state the fee never makes a call fail |
| `Success.LaterMintOutcome` | swaper/contracts/Pair.sol:313-334 | in a reachable state with shares `mint` succeeds if and only if the balances fit and each side covers one share |
| `Success.FirstMintOutcome` | swaper/contracts/Pair.sol:313-334 | the first `mint` succeeds if and only if the balances fit and the root of the deposits exceeds the minimum |
| `Success.BurnOutcome` | swaper/contracts/Pair.sol:337-359 | `burn` succeeds if and only if the shares are worth a unit of each token |
| `Success.SkimAndSyncOutcome` | swaper/contracts/Pair.sol:393-403 | `skim` never fails, `sync` only when a balance leaves 112 bits |
| `Success.FlashLoanOutcome` | swaper/contracts/Pair.sol:362-390 | a flash loan repaid in the callback succeeds if and only if the repayment covers the loan and 0.3%; without the callback it is refused |
| `MintBurn.NoFeeWithoutGrowth` | swaper/contracts/Pair.sol:292-310 | right after an event that recorded k, `_mintFee` mints nothing |
| `MintBurn.MintAndBurnEffect` | swaper/contracts/Pair.sol:313-359 | what `mint`, a transfer back and `burn` pay, exactly |
| `MintBurn.MintThenBurnNeverProfits` | swaper/contracts/Pair.sol:313-359 | a later deposit never comes back larger; on the first one exactly if the locked shares cover the claim on earlier reserves |
| `MintBurn.SyncedPoolIsReachable` | swaper/contracts/Pair.sol:401-403 | a pool can get into the state of that example |
| `MintBurn.FirstDepositCanProfit` | swaper/contracts/Pair.sol:321-327 | numbers for which the first deposit does come back larger |
| `Oracle.PriceIsRatio` | swaper/contracts/Pair.sol:496-508 | the price is the ratio of the reserves times 2^112, rounded down, on both sides |
| `Oracle.UpdateAccrues` | swaper/contracts/Pair.sol:276-289 | an update adds price times wrapped elapsed time to both accumulators, modulo 2^256 |
| `Oracle.StepAccrues` | swaper/contracts/Pair.sol:276-289 | every updating call accrues the price it found, and no other step touches the oracle |
| `Oracle.RunAccrues` | swaper/contracts/Pair.sol:276-289 | over a run below 2^32 seconds the accumulators gain the sum of price times duration, modulo 2^256, while timestamps wrap |
| `Oracle.PriceSecondsBounded` | swaper/contracts/Pair.sol:280-285 | that sum lies between the extreme prices times the elapsed time |
| `Oracle.OracleMeasuresMean` | swaper/contracts/Pair.sol:280-285 | the wrapped difference of two readings is that sum exactly, and lies between the extreme prices times the time |
| `Oracle.RatioSeconds` | swaper/contracts/Pair.sol:280-285 | the sum of price times duration, bounded by fractions that bound the ratio of the reserves |
| `Oracle.OracleMeasuresRatio` | swaper/contracts/Pair.sol:280-285 | the difference of two readings lies between such fractions times 2^112 and the elapsed time, up to one unit a second |
| `Oracle.SharesMeanPrices` | swaper/contracts/Pair.sol:282 | a pool with shares has a price at every point of a run |
| `Quote.QuoteIsFloor` | swaper/contracts/Swaper.sol:103-108 | the quote is the floor of the exact rational amount |
| `Quote.QuoteBelowReserve` | swaper/contracts/Swaper.sol:103-108 | with both reserves filled the quote is below the output reserve |
| `Quote.QuoteFits` | swaper/contracts/Swaper.sol:103-108 | 112-bit amounts and reserves never overflow it |
| `Quote.CheckKMeaning` | swaper/contracts/Pair.sol:379-386 | the K check, freed from its overflow checks |
| `Quote.CheckKSymmetric` | swaper/contracts/Pair.sol:379-386 | it does not depend on which token is called which |
| `Quote.QuoteLeavesProduct` | swaper/contracts/Swaper.sol:103-108 | at any fee of at least 0.3% the quote leaves enough of the output reserve to cover the old product |
| `Quote.LeftoverAccepted` | swaper/contracts/Pair.sol:382-386 | an output that leaves enough satisfies the inequality of the K check, also when the pair holds more than its reserves |
| `Quote.AcceptedIffQuoted` | swaper/contracts/Pair.sol:379-386 | at exactly 0.3% it accepts an amount if and only if it is at most the quote |
| `SwaperTheorem.HopOutcome` | swaper/contracts/Pair.sol:362-390 | a funded pair pays its quote if and only if its incoming reserve is not empty and its balances fit |
| `SwaperTheorem.PaysExactlyUpToQuote` | swaper/contracts/Pair.sol:362-390 | at 0.3% `swap` pays every amount up to the quote and none above |
| `SwaperTheorem.QuotePositive` | swaper/contracts/Swaper.sol:89-96 | a positive last amount needs positive amounts on every hop |
| `SwaperTheorem.RouteQuotes` | swaper/contracts/Swaper.sol:89-96 | filled reserves of 112 bits never make a quote revert |
| `SwaperTheorem.HopsOutcome` | swaper/contracts/Swaper.sol:72-85 | all hops of a quoted route succeed if and only if they fit, and the account receives the last amount |
| `SwaperTheorem.QuotedRouteGoesThrough` | swaper/contracts/Swaper.sol:60-87 | the promise of `_swap` for routes of any length: refused before anything moves, or successful if and only if it fits, with the exact gain |
| `SwaperTheorem.SuccessMeansGain` | swaper/contracts/Swaper.sol:60-87 | for any routes, sound or not, a success leaves the account with more WETH and uses up exactly the stake of its approval |
| `SwaperTheorem.EmptyReserveStopsTheRoute` | swaper/contracts/Swaper.sol:60-87 | a route that passes the quote and is refused by a pair |
| `SwaperTheorem.HalfEmptyIsReachable` | swaper/contracts/Pair.sol:401-403 | both pairs of that example can get into their states |
| `Swaper.Executor.GetReserves` | swaper/contracts/Swaper.sol:98-101 | reserves in the order of the direction |
| `Swaper.Executor.GetAmountsOut` | swaper/contracts/Swaper.sol:89-96 | the filled array is the recursive quote of the route |
| `Swaper.Executor.TransferFromAccount` | swaper/contracts/Swaper.sol:68 | WETH and the approval that the stake uses up |
| `Swaper.Executor.CallPairSwap` | swaper/contracts/Swaper.sol:79-83 | one call of a pair changes that pair and the balances only |
| `Swaper.Executor.PerformHops` | swaper/contracts/Swaper.sol:70-85 | the loop of calls pays hop by hop, the last one to the account |
| `Swaper.Executor.Swap` | swaper/contracts/Swaper.sol:60-87 | `_swap` does what `SwapRoutes` says, revert by revert |
| `Swaper.Executor.Run` | swaper/contracts/Swaper.sol:60-87 | the transaction does that, or leaves every pair, all balances and the approval as they were |
| `RouteCodec.PackParams` | monitor/trader/trader.go:179-193 | the loop yields the text of amount, pairs, directions and fees |
| `RouteCodec.EncodedLayout` | monitor/trader/trader.go:181-193 | which is ten bytes of amount and 23 bytes a hop |
| `RouteCodec.Decode` | swaper/contracts/Swaper.sol:33-58 | the loop fills the routes from the overlapping loads |
| `RouteCodec.DecodeUndoesEncode` | swaper/contracts/Swaper.sol:33-58 | decoding recovers amount and hops, whatever lies behind them in memory, and `n % 256` of `n` hops as count |
| `RouteCodec.DirectionsChain` | monitor/trader/trader.go:183-192 | the packed directions lead along the chain of tokens from start to end |
| `SwapGraph.Graph.constructor` | monitor/arbitrage/graph.go:22-29 | an empty graph |
| `SwapGraph.Graph.FreshIsReady` | monitor/arbitrage/graph.go:22-29 | on a graph that was never searched a search may start from any source |
| `SwapGraph.Graph.AddVertices` | monitor/arbitrage/graph.go:31-35 | added vertices are unreached |
| `SwapGraph.Graph.AddEdges` | monitor/arbitrage/graph.go:37-41 | a later edge replaces one with its key |
| `SwapGraph.Graph.Relax` | monitor/arbitrage/graph.go:48-61 | one relaxation keeps every distance the weight of a walk and every predecessor edge within its distance |
| `SwapGraph.Graph.Round` | monitor/arbitrage/graph.go:47-62 | so does a round, in any order, and it relaxes every edge |
| `SwapGraph.Graph.BellmanFord` | monitor/arbitrage/graph.go:43-67 | after at most five rounds no walk of up to five edges is shorter than a distance |
| `SwapGraph.RoundCovers` | monitor/arbitrage/graph.go:47-62 | one round reaches one edge farther, whatever the order |
| `SwapGraph.FixpointCovers` | monitor/arbitrage/graph.go:63-65 | a round without change may stand for all that are left |
| `SwapGraph.Graph.FindClosingEdge` | monitor/arbitrage/graph.go:71-93 | the closing edge is a best one, its distance is the one recorded, and it is missing exactly if there is none |
| `SwapGraph.NoVertexTwice` | monitor/arbitrage/graph.go:96-107 | a walk back along fixed predecessors that reaches the source repeats no vertex |
| `SwapGraph.StepBack` | monitor/arbitrage/graph.go:99-106 | a step back always finds its predecessor edge, and closes a negative cycle at the source |
| `SwapGraph.Graph.FindCircle` | monitor/arbitrage/graph.go:69-113 | a non-empty result is a simple cycle through the source and, reversed, a closed walk of strictly negative weight, closed by the edge that lowers the distance of the source most; an empty one has one of two reasons |
| `SwapGraph.CycleIsClosedWalk` | monitor/arbitrage/graph.go:94-112 | read backwards it is a closed walk of that weight |
| `BellmanFord.BF1Graph.AddEdge` | monitor/arbitrage/bellman_ford_1.go:24-26 | the edge is appended |
| `BellmanFord.RelaxEdges` | monitor/arbitrage/bellman_ford_1.go:38-46 | a pass over the edges in place, and the number of changes |
| `BellmanFord.RoundsCover` | monitor/arbitrage/bellman_ford_1.go:37-47 | after `n` rounds each distance is the weight of a walk and no walk of `n` edges is shorter |
| `BellmanFord.Shorten` | monitor/arbitrage/bellman_ford_1.go:37-47 | without a negative cycle a walk can be cut below the number of vertices at no cost |
| `BellmanFord.RelaxableMeansCycle` | monitor/arbitrage/bellman_ford_1.go:49-57 | an edge that still relaxes betrays a reachable negative cycle |
| `BellmanFord.SettledHasNoNegativeCycle` | monitor/arbitrage/bellman_ford_1.go:49-57 | and without one there is no such cycle |
| `BellmanFord.NoLoopBack` | monitor/arbitrage/bellman_ford_1.go:42-45 | relaxing never closes a loop of predecessors unless there is a negative cycle |
| `BellmanFord.RoundsKeepTree` | monitor/arbitrage/bellman_ford_1.go:37-47 | following predecessors always arrives at the source |
| `BellmanFord.WayBackIsShortest` | monitor/arbitrage/bellman_ford_1.go:68-74 | the way back is a walk whose weight is the distance |
| `BellmanFord.BF1Graph.BellmanFord` | monitor/arbitrage/bellman_ford_1.go:28-60 | nothing is returned exactly if a negative cycle is reachable; otherwise the distances are the true minima |
| `BellmanFord.ShortestPath` | monitor/arbitrage/bellman_ford_1.go:68-74 | the printing loop ends and collects the stops of a lightest walk |
| `BellmanFord.BF2Graph.BellmanFord` | monitor/arbitrage/bellman_ford_2.go:36-58 | the early exit gives the labels of the full number of rounds |
| `BellmanFord.FixpointStays` | monitor/arbitrage/bellman_ford_2.go:53-55 | a round without change repeats for ever |
| `BellmanFord.BothSearchesAgree` | monitor/arbitrage/bellman_ford_2.go:36-58 | both searches compute the same distances |
| `Pricing.GetAmountsOut` | monitor/protocol/uniswapv2.go:344-366 | the loop computes the composed hops, or nothing for a path that does not return |
| `Pricing.PathIsVirtualPool` | monitor/protocol/uniswapv2.go:344-376 | a chaining path of any length pays what one pool pays |
| `Pricing.StrayPathPaysNothing` | monitor/protocol/uniswapv2.go:358-364 | a path that breaks off or does not return pays nothing |
| `Pricing.ComposePays` | monitor/protocol/uniswapv2.go:368-376 | two pools in a row pay what their composition pays |
| `Pricing.VirtualRate` | monitor/protocol/uniswapv2.go:368-376 | the coefficients of that pool are in the ratio of the product of post-fee rates |
| `Pricing.PoolIncreases` | monitor/protocol/uniswapv2.go:368-376 | more in, strictly more out |
| `Pricing.PoolProfit` | monitor/protocol/uniswapv2.go:368-376 | exactly which amounts a pool pays more for than it takes |
| `Pricing.ProfitNeedsRateAboveOne` | monitor/protocol/uniswapv2.go:344-376 | a path back to its start profits exactly for amounts below a bound, and only if the product of rates exceeds 1 |
| `Pricing.RateAboveOnePays` | monitor/protocol/uniswapv2.go:344-376 | and if it exceeds 1, some amount does profit |
| `TradeSizing.Trader.constructor` | monitor/trader/trader.go:72-73 | the initial gas prices are positive |
| `TradeSizing.Trader.FetchedGasPrice` | monitor/trader/trader.go:131-133 | a fetched price is taken only if positive |
| `TradeSizing.Trader.FetchedEthGasPrice` | monitor/trader/trader.go:146-148 | a fetched price is taken only if positive |
| `TradeSizing.Trader.EstimateFee` | monitor/trader/trader.go:255-299 | the threshold is positive for paths of any length |
| `TradeSizing.ThresholdGrows` | monitor/trader/trader.go:255-299 | the thresholds for two to six hops in terms of the gas prices, and what each further hop adds |
| `TradeSizing.ShrunkStep` | monitor/arbitrage/arbitrage.go:157 | each round keeps nine tenths, so no amount exceeds the first |
| `TradeSizing.ShrinksBelow` | monitor/arbitrage/arbitrage.go:157 | taking nine tenths gets below any positive threshold |
| `TradeSizing.FindAmount` | monitor/arbitrage/arbitrage.go:150-163 | the loop ends with the first amount that pays, or with none down to the threshold |
| `TradeSizing.DecisionIsFirst` | monitor/arbitrage/arbitrage.go:150-163 | the amounts tried before neither pay nor are below the threshold; the last one pays, or is below it and does not |
| `TradeSizing.StartIsATenth` | monitor/arbitrage/arbitrage.go:141-149 | sizing starts at a tenth of what the first pool holds of WETH, if it holds any |
| `TradeSizing.TryTrade` | monitor/arbitrage/arbitrage.go:113-163 | the reversed path, the starting amount and the decision; no traded amount exceeds that tenth |
| `TradeSizing.TradesOnlyAboveOne` | monitor/arbitrage/arbitrage.go:150-163 | a trade is made only on a path whose product of rates exceeds 1, at a profit above the threshold |
| `Arbitrage.FindArbitrage` | monitor/arbitrage/arbitrage.go:58-98 | the graph has exactly the edges of usable records; a path found is a negative cycle of at most ten of them, and none is found only for one of two reasons |
| `Arbitrage.EdgesAreUsableRecords` | monitor/arbitrage/arbitrage.go:66-90 | there is an edge in each direction for exactly the records without error mark and with a fee |
| `Arbitrage.ThereAndBackLoses` | monitor/arbitrage/arbitrage.go:71-72 | the two weights of a pair never sum below zero |
| `Arbitrage.NoPairTwice` | monitor/arbitrage/arbitrage.go:92-95 | a path found uses no pair twice |
| `Arbitrage.ReversalChains` | monitor/arbitrage/arbitrage.go:124-131 | its reversal chains by token |
| `Arbitrage.ReversalRate` | monitor/arbitrage/arbitrage.go:71-91 | the weight of a cycle is minus the logarithm of the product of its rates |
| `Arbitrage.FoundPathPays` | monitor/arbitrage/arbitrage.go:92-131 | a path found, reversed, leads from WETH to WETH at a product of rates above 1 |
| `Arbitrage.FoundPathProfits` | monitor/arbitrage/arbitrage.go:92-131 | so before gas some amount profits |
| `QuoteRefinement.IntegerQuoteIsFloor` | swaper/contracts/Swaper.sol:103-108 | the integer quote is the floor of the real one |
| `QuoteRefinement.HopGap` | swaper/contracts/Swaper.sol:103-108 | on one hop the gap to the real amount is below one plus the old gap times the rate |
| `QuoteRefinement.QuoteRefinesPricing` | swaper/contracts/Swaper.sol:89-96 | on a route of any length the integer quote never exceeds the real one and stays within the accumulated gap |
| `Storage.PositionsCompare` | monitor/protocol/protocol.go:26-37 | `NeedUpdate` is the order by block, then transaction, then log index, and that order is total and transitive |
| `Storage.PutTakesLater` | monitor/storage/storage.go:56-59 | a record is taken if its key is new or the stored one comes before it by block, transaction and log index, and in no other case |
| `Storage.DatasStorage.Store` | monitor/storage/storage.go:46-61 | the loop puts record after record under its key, keeping the later one; lists of different lengths change nothing |
| `Storage.KeyedByAddress` | monitor/datakeeper/datakeeper_file.go:108-111 | with its own address as the key of each record that is `PutAll` |
| `Storage.PutAllKeepsLatest` | monitor/storage/storage.go:55-60 | no stored record has a larger block than what is kept, nor the same block with a larger transaction index, nor both with a larger log index; and everything kept came from somewhere |
| `Storage.PutAllConcat` | monitor/storage/storage.go:55-60 | storing two batches is storing their concatenation |
| `Storage.FilterUniswapV2PairFromLog` | monitor/protocol/uniswapv2.go:135-164 | one record for each address, of its last Sync log, or an error exactly if one cannot be unpacked |
| `Storage.FilteredRecord` | monitor/protocol/uniswapv2.go:150-161 | a filtered record has fee 30, no error mark, and the reserves and position of the last Sync log |
| `Storage.FilterDelivers` | monitor/protocol/uniswapv2.go:135-164 | the filtered records in any order deliver the batch |
| `Storage.StoreConverges` | monitor/storage/storage.go:46-61 | for logs of an address whose block, transaction and log indices rise: however the stream is cut and in whatever order batches arrive, each address ends with its latest log |
| `FileData.LogStateRoundTrip` | monitor/protocol/protocol.go:43-84 | parsing undoes printing of a position |
| `FileData.AddressRoundTrip` | monitor/protocol/uniswapv2.go:100-111 | an address survives printing and parsing in any case of letters |
| `FileData.BodyRoundTrip` | monitor/protocol/uniswapv2.go:69-130 | so do the seven fields of a record |
| `FileData.AcceptedIsPersistable` | monitor/protocol/uniswapv2.go:87-133 | what is parsed has no zero address or reserve and fits its types; other lines are refused |
| `FileData.RecordRoundTrip` | monitor/protocol/uniswapv2.go:69-133 | parsing undoes printing in every persisted field, and a line has no line break |
| `DataKeeper.WriteData` | monitor/datakeeper/datakeeper_file.go:75-78 | every record is written once, in whatever order |
| `DataKeeper.ReadData` | monitor/datakeeper/datakeeper_file.go:95-111 | all lines are parsed before anything is stored |
| `DataKeeper.StoreRoundTrip` | monitor/datakeeper/datakeeper_file.go:67-114 | the reloaded store equals the one that was written |
| `EndToEnd.ChainIsSoundRoute` | monitor/trader/trader.go:183-192 | a chaining path of distinct deployed pairs packs into a sound route |
| `EndToEnd.FoundRouteIsSound` | monitor/arbitrage/arbitrage.go:92-131 | what the monitor finds is such a route |
| `EndToEnd.SentIsReceived` | swaper/contracts/Swaper.sol:33-58 | the executor reads the path that was sent |
| `EndToEnd.FoundTradeOnChain` | swaper/contracts/Swaper.sol:60-96 | a found trade on unmoved reserves: decoded as sent, quoted within the rounding of the monitor, refused or successful with the exact gain |
| `EndToEnd.FoundPathStarts` | monitor/arbitrage/arbitrage.go:137-149 | the first pair of a found path holds WETH, so sizing starts from a positive amount |
| `EndToEnd.DecidedTradeOnChain` | monitor/arbitrage/arbitrage.go:150-170 | a decided trade is not refused while the rounding stays within the threshold: it succeeds if and only if it fits |

## Left out

Of the contracts:

- The factory registry, `create2`, hashing, nonces and events. What is kept of them: the two tokens of a pair differ, callers are
  not the zero address, and a permit counts for the address its signature recovers to, which is a parameter.
- Tokens that charge on transfer, rebase or call back. Transfers are exact, and balances of tokens are natural numbers without an
  upper bound.
- Swaper.Executor.Swap: on a revert it says nothing of the storage; `Swaper.Executor.Run` is the whole transaction and undoes it.
  In the same way `Pair.UniswapV2Pair.Run` completes `Pair.UniswapV2Pair.Dispatch`.
- Swaper.Executor.TransferFromAccount: WETH's approval of the executor is one number, and the account is not the executor itself.
- SwaperTheorem.QuotedRouteGoesThrough: needs what `RouteSound` lists, namely distinct, idle pairs with covered reserves, fees
  from 0.3% to 100%, and pairs, tokens and account at different addresses.
- MintBurn.MintThenBurnNeverProfits: the pair holds no shares of its own, before or through the fee setting, since it would
  burn them along.
- Pair.UniswapV2Pair.MintBody: the code of `mint` is divided into three methods, and loops over hops and bytes keep their form.

Of the monitor:

- Floating point. Distances, weights and amounts are exact reals; the starting distances 1e18, infinity and the largest float
  are the value `Unreached`, which adding a weight does not change.
- The decimal logarithm: any function that turns products into sums and keeps the order, which is all that is used.
- Arbitrage.FindArbitrage: usable records have filled reserves, a fee below 100% and two different tokens; the weights are not
  also stored in the record, and a key of bytes and a sign is a pair of both.
- SwapGraph.Graph.FindCircle: that it finds a cycle whenever there is one is not claimed; relaxation lowers the distance of the
  source too, and rounds and steps are bounded. A graph may be searched again unless an earlier search lowered the distance of
  the source itself, whose predecessors would then no longer account for the distances; the monitor builds a new graph for
  every search (`monitor/arbitrage/arbitrage.go:63`).
- SwapGraph.Graph.BellmanFord: the same holds of the graph it starts from.
- Pricing.GetAmountsOut: where a fee above 100% makes a denominator zero, the amount is 0 instead of a negative infinity; the
  next hop and the comparison with the stake treat both alike.
- TradeSizing.TryTrade: the cache of recent paths is left out, and a decision to trade is the result instead of a transaction.
- RouteCodec.PackParams: the amount is a whole number already, and text is a sequence of hex digits.
- Storage.DatasStorage.Store: locking makes each call atomic; expiry in `LoadAll` depends on the clock and is left out, as is the
  carry-over of tokens and fee between handlers.
- FileData.RecordRoundTrip: upper and lower case of address letters is arbitrary; a negative reserve, which is never written, is
  refused here and accepted by the code.
- Arbitrage.FoundPathPays: holds for records that are all from one reading of the store.
- BellmanFord.BF2Graph.BellmanFord: its negative cycle search and the matrix variant in `bellman_ford_3.go` are left out; the
  former does not always return a cycle, the latter repeats the algorithm above.
- Fee estimation from swap ratios, the final gas price check, clients, subscriptions, signing, files, logging and timing.
