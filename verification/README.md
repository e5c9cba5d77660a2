# The soldex quoting engine, modelled and proved in Dafny

soldex quotes exact-in (and, for one venue, exact-out) swaps on Solana pools with pure integer
arithmetic. This project models the quoting engine of four kinds of pool (Raydium CLMM, Orca Whirlpool,
Meteora DLMM and Meteora DAMM v2) and the arithmetic they share, and proves what a caller relies on: quotes
never draw more than their input, never beat the pool's own price, never pay less for more input, end on
every pool, charge exactly the stated fee, and round in the pool's favour by exactly the stated amounts. Where the code breaks such a
promise the project gives the failing quote and the exact condition for keeping it.

- **Raydium CLMM.** `RaydiumMath` (amounts, prices, one swap step, limit-order prices), `RaydiumFee`
  (dynamic fee), `RaydiumRun` (the two nested loops as functions on their state), `RaydiumTheorems` (safety,
  lock-step, consumption and failures of whole runs), `RaydiumQuote` (the quote; the class `SwapState` updated in
  place and proved equal to the functions), `RaydiumTracking` (the fee group always holds the next price movement,
  and when a skip is flat), `RaydiumWalker` (the stateful tick-array walker, and the quote over it).
- **Orca Whirlpool.** `OrcaMath` (its own formulas, proved equal to Raydium's fee-on-input step),
  `OrcaFee` (adaptive fee and its core range), `OrcaRun`, `OrcaTheorems` (lock-step and failures of whole
  runs), `OrcaTracking` (the tick group always names the group of the next price segment, and skips are
  flat), `OrcaStops` (when extra stops never pay more), `OrcaQuote` (the quote and the class
  `FeeRateManager`), `OrcaWalker` (the walker, and the quote over it).
- **Shared tick and power arithmetic.** `Rounding` (floor and ceiling through their adjunctions), `BitFold`
  (truncated products over the bits of an exponent and the carry induction), `TickTables` and `TickMath`
  (both venues' tick tables, with certificates that the prices increase), `TickAccuracy` (how near those prices are
  to the exact powers of 1.0001), `Reals` (real powers and inequalities), `MachineIntegers` (Go's fixed widths and
  truncating division where they show), `Wrappers`.
- **Meteora DLMM.** `FixedPow` (square-and-multiply: error bound, order of exponents), `DlmmMath`,
  `DlmmSwap` (one bin, the run over bins, the volatility fee), `DlmmQuote` (the quote and the class
  `SwapPool`), `DlmmBin` (the second single-bin implementation), `PriceCache` (the memo: a class over the
  shared table, and a state machine over every interleaving).
- **Meteora DAMM v2.** `DammCompounding` (exact-in and exact-out), `RateLimiter` (closed form and chunk
  walk), `FeeSchedule` (time-scheduled base fee).

## Conventions

`big.Int` is `int` or `nat`; a `uint64` is a bounded `nat`, with wrap-around written out (`Uint64`, `Uint32`,
`Int32`) where the program does not check. Errors are `Result`s. Each loop and each object the program
updates in place is a `method` or a `class` here, and its `ensures` equates the new state with a function of
the old one; the theorems are lemmas about those functions. Tick, bin and array providers are parameters:
pure functions that keep the contract their type documents (`Honours`, `LoaderHonours`). Both walkers are proved
to keep it (`RaydiumWalker.WalkerHonours`, `OrcaWalker.WalkerHonours`), and the quote loop over the stateful walker
object is proved equal to the quote over that pure provider (`QuoteOverWalker` in both modules).

A Raydium or Orca run is stated for a `Consistent` pool: tick spacing and group size at least one, a fee rate
below the whole, and a stored tick that brackets the stored price. The functions carry these as `requires` on
the state (`Positioned`), and every step is proved to keep them, which is also what makes both loops end.

## Where code, comments and promises differ

- `math/raydium/liquidity_math.go:17-21` says the two-step ceiling rounds differently from Orca's single
  one. Over unbounded integers they are equal: `Rounding.CeilNested`, `OrcaMath.DeltaAmountAgrees`.
- Raydium's consumed input is not monotone in the input; only the output is. `RaydiumQuote.ConsumedInputNotMonotone`
  gives two quotes over one resting order. More input consumes less only where the smaller quote meets dust on its
  way: a match whose whole book costs less than what is left and yet, for rounding, is not bought out
  (`RaydiumTheorems.FillDrawsNoLess` for a fill, `RaydiumTheorems.RunDust` for a run). A quote that meets dust
  consumes all of its input, so it falls behind exactly when the larger ends short of that too
  (`RaydiumQuote.QuoteConsumption`). Orca's consumed input is monotone: `OrcaQuote.QuoteMonotone`.
- Extra Orca stops never pay more when the quote finishes without them, wherever they are added; a quote that runs
  out of stops can be carried on by one. `OrcaQuote.ExtraStopsNeverPayMore` is the if-and-only-if,
  `OrcaQuote.LaterStopCanPayMore` the failing pair of quotes.
- `models/damm_rate_limiter.go:60-62` calls a cap below the cliff degenerate and charges the cliff; the chunk
  walk charges the cap. `RateLimiter.ClosedFormIsWalk` states the agreement as an if-and-only-if.
- `quote/dlmm/swap_quote.go:118` adds to the running total unchecked. `DlmmQuote.OrderedIffUnwrapped`: quotes keep the
  order of their inputs exactly while that total does not wrap; `DlmmQuote.UnfittingReservesBreakOrder` is a failing pair.
- `quote/damm/compounding_quote.go:11` and `:15` add to a reserve unchecked. With the fee on the input, exact-out is the
  adjoint of exact-in exactly when neither reserve is empty and that sum fits (`DammCompounding.ExactOutAdjoint`); on
  either side, exactly when exact-in pays what the unwrapped curve would (`DammCompounding.AdjointIff`).
  `DammCompounding.WrappedOrEmptyBreaksAdjunction` gives the failing pairs of quotes.
- Raydium skips group bounds whenever the accumulator is saturated, also while the price moves back toward the
  reference. Over stops on the tick-spacing grid such a step charges every group its price crosses that group's own
  rate exactly when the group on its way closest to the reference has the rate it charges
  (`RaydiumTracking.SkipIsFlatIff`). `RaydiumTracking.SkipBackChangesRate` is a quote whose first step is charged a
  rate of 100 for a movement through a group whose own rate is 0.

## Model

| member | source | states |
|---|---|---|
| Rounding.CeilNested | math/raydium/liquidity_math.go:22-35 | Dividing and rounding up twice equals dividing once by the product and rounding up. |
| Rounding.FeeAdjoint | math/raydium/swap_math.go:41-96 | A net amount is within what the fee leaves of a gross one exactly when the net plus its own grossed-up fee fits in the gross. |
| BitFold.GapSurvives | math/raydium/tick_math.go:92-99 | A gap between two accumulators is still there after every later truncated multiplication, for any table meeting the gap inequalities. |
| BitFold.CarryDown | math/raydium/tick_math.go:82-106 | For any table of multipliers meeting the carry inequalities, the next exponent's truncated product lies below by the surviving gap, however far the carry runs. |
| BitFold.CarryUp | math/orca/tick_math.go:91-104 | The same upwards, for tables of multipliers above one. |
| TickTables.MagicsCertified | math/raydium/tick_math.go:35-68 | Raydium's nineteen multipliers meet the gap and carry inequalities. |
| TickTables.NegativeCertified | math/orca/tick_math.go:53-73 | Orca's negative-tick multipliers meet them. |
| TickTables.PositiveCertified | math/orca/tick_math.go:29-51 | Orca's positive-tick multipliers meet the upward ones with room for the final shift. |
| TickAccuracy.MagicsAccurate | math/raydium/tick_math.go:35-68 | Raydium's first multiplier squared is 10000/10001 and every further one the square of the one before, each within a stated number of parts in 10^20. |
| TickAccuracy.NegativeAccurate | math/orca/tick_math.go:53-73 | The same for Orca's negative-tick multipliers, to within a few parts in 10^20 at the first and three in 10^15 at the last. |
| TickAccuracy.PositiveAccurate | math/orca/tick_math.go:29-51 | The same for Orca's positive-tick multipliers against 10001/10000. |
| TickMath.FoldTable | math/raydium/tick_math.go:88-98 | The table loop computes the truncated product over the set bits of the tick, bit 0 as the seed. |
| TickMath.RaydiumSqrtPriceFromTick | math/raydium/tick_math.go:82-106 | The price loop with its reciprocal step computes the price function the next two rows are about. |
| TickMath.RaydiumPriceIncreasing | math/raydium/tick_math.go:82-106 | The sqrt price is strictly increasing over the whole tick range, the reciprocal for positive ticks included. |
| TickMath.RaydiumPriceBounds | math/raydium/tick_math.go:14-33 | The least and greatest tick price exactly at the published sqrt-price limits. |
| TickMath.RaydiumTickAt | math/raydium/tick_math.go:108-152 | The greatest tick in range whose price does not exceed the given one. |
| TickMath.OrcaSqrtPriceFromTick | math/orca/tick_math.go:84-123 | Both table loops compute the Orca price function. |
| TickMath.OrcaPriceIncreasing | math/orca/tick_math.go:84-123 | The Orca sqrt price is strictly increasing, across the change of table and the final 32-bit shift. |
| TickMath.OrcaPriceBounds | math/orca/tick_math.go:9-12 | The tick bounds price exactly at Orca's limits. |
| TickMath.OrcaTickAt | math/orca/tick_math.go:125-165 | The greatest tick in range whose Orca price does not exceed the given one. |
| TickAccuracy.FoldNear | math/raydium/tick_math.go:82-106 | For any table so certified and every exponent its bits can express, the untruncated product of the selected multipliers, squared, is the exact power within the summed errors. |
| TickAccuracy.DownFold | math/raydium/tick_math.go:88-98 | With multipliers of at most one the truncated product is short of the exact one by at most one unit a bit. |
| TickAccuracy.UpFold | math/orca/tick_math.go:91-104 | With multipliers of at least one it is short by at most one part in the unit a bit. |
| TickAccuracy.RaydiumRatioTracks | math/raydium/tick_math.go:82-99 | For every n below 2^19 the table loop gives the square root of 2^128*(10000/10001)^n, within four parts in 10^10 of the square and less than nineteen units of truncation. |
| TickAccuracy.OrcaNegativeTracks | math/orca/tick_math.go:106-123 | The same for Orca's negative-tick loop. |
| TickAccuracy.RaydiumPriceTracks | math/raydium/tick_math.go:82-106 | At every tick in range, on both sides of zero and through the reciprocal, the price squared is 2^128*1.0001^tick within one part in a hundred million. |
| TickAccuracy.OrcaPriceTracks | math/orca/tick_math.go:84-123 | The same for every Orca price, through both tables and the final shift. |
| MachineIntegers.FloorIndex | quote/raydium/dynamic_fee.go:21-27 | Truncating division with its correction is the floor, negative ticks included. |
| RaydiumMath.InputAdjoint | math/raydium/liquidity_math.go:17-49 | The input charged for a move is the least whole amount covering its exact cost, in both directions. |
| RaydiumMath.OutputAdjoint | math/raydium/liquidity_math.go:17-49 | The output paid for a move is the greatest whole amount its exact proceeds cover. |
| RaydiumMath.ReachAdjoint | math/raydium/sqrt_price_math.go:9-50 | The price an input reaches is at or past q exactly when the input covers the rounded-up cost of q: directed rounding as an if-and-only-if. |
| RaydiumMath.NextPriceSound | math/raydium/sqrt_price_math.go:9-50 | The price reached is positive, ahead, and costs no more than the input. |
| RaydiumMath.OutputMono | math/raydium/liquidity_math.go:17-49 | Moving further never pays out less. |
| RaydiumMath.StepReaches | math/raydium/swap_math.go:31-96 | A step whose input covers the target lands exactly on it and draws the exact cost, within the input. |
| RaydiumMath.StepStops | math/raydium/swap_math.go:31-96 | Any other step stops strictly short, spends everything, and never reads the absent amount to the target. |
| RaydiumMath.StepSound | math/raydium/swap_math.go:31-96 | Whichever way it ends, a step draws no more than the input, stays between its ends, and pays no more than the curve. |
| RaydiumMath.StepLockstep | math/raydium/swap_math.go:31-96 | With more input a step does the same, unless the smaller input ran out in it, and then the larger draws and is paid at least as much; both fee sides. |
| RaydiumMath.StepTrades | math/raydium/swap_math.go:31-96 | What a step trades, exactly, in both directions and with the fee on either side: the target for the least input that leaves its exact price after the fee, or all of the input for the furthest price its net pays for; and the greatest output that move is worth, less its fee. |
| RaydiumMath.CurveWithinSpot | math/raydium/liquidity_math.go:17-49 | Moving along the curve never beats the spot price it starts from. |
| RaydiumMath.OrderAdjoint | math/raydium/tick_math.go:170-195 | A limit order's two conversions are adjoint: an input buys `out` exactly when it covers the rounded-up price of `out`. |
| RaydiumMath.OrderWithinSpot | math/raydium/tick_math.go:154-195 | A fill at the tick's rounded price never beats the tick's spot price. |
| RaydiumFee.RateIsLeastCover | quote/raydium/dynamic_fee.go:86-100 | The dynamic rate is the least whole rate covering the quadratic surcharge, up to the cap. |
| RaydiumFee.TotalIsLeastCover | quote/raydium/dynamic_fee.go:73-100 | The charged rate is the least whole one that pays the base rate and, out of 10^13, the control times the squared distance, up to 10%; without a dynamic fee it is the base rate. |
| RaydiumFee.FeeNeverFallsWithDistance | quote/raydium/dynamic_fee.go:53-100 | The further the price is from the reference group, the higher the total fee, on either side. |
| RaydiumFee.ReferenceDecays | quote/raydium/dynamic_fee.go:32-51 | Exactly how the reference decays: untouched within the filter period; past it moved to the current group and timestamp, with the greatest whole share of the accumulator the reduction covers inside the decay period, and zero after. |
| RaydiumRun.MoveSound | quote/raydium/limit_order.go:75-107 | A curve step never overdraws: it fails only when the output leaves a u64. |
| RaydiumRun.FillSound | quote/raydium/limit_order.go:16-63 | A limit-order fill draws no more than the remaining input and leaves the book empty or the input spent. |
| RaydiumRun.FillIsGreatest | quote/raydium/limit_order.go:16-63 | A fill gives `out` exactly when the book holds it and the input after its fee covers the order's rounded-up price of it, and draws the exact price with its fee when the book runs out, else everything. |
| RaydiumRun.MatchSound | quote/raydium/limit_order.go:16-63 | Complete matching: after every match the book at the tick is empty or the input exhausted, within the tick's spot price, and the overdraw checks cannot fire. |
| RaydiumRun.MatchTrades | quote/raydium/limit_order.go:16-63 | What a match trades, exactly, in both directions and with the fee on either side: the whole book for the least input that leaves its rounded price after the fee when more could be bought, or as much as the net input buys for all that is left. |
| RaydiumRun.AdvanceSound | quote/raydium/dynamic_fee.go:128-154 | Advancing the group index, realigned or not, leaves the group's end ahead of the price and nothing else changed. |
| RaydiumRun.SettleSound | quote/raydium/swap_quote.go:163-208 | A boundary not reached is neither matched nor crossed; a reached one is settled once, and the tick brackets the new price. |
| RaydiumRun.StepOnceSound | quote/raydium/swap_quote.go:163-208 | One iteration keeps the position, moves only forward, stays within spot, leaves a matched boundary with nothing to match again, and shrinks the inner measure. |
| RaydiumRun.IterationTrades | quote/raydium/swap_quote.go:163-208 | What an iteration books, exactly: one step along the curve to its bound at the charged rate, and at the boundary one match of what is left. |
| RaydiumRun.StepToBoundarySound | quote/raydium/swap_quote.go:163-208 | The walk to a boundary ends, and with input left it ends on the boundary with the tick crossed. |
| RaydiumRun.WalkCrossesOnce | quote/raydium/swap_quote.go:163-233 | A walk changes the liquidity by its boundary's signed net at most once, exactly once when input is left, and not at all when the boundary is not reached. |
| RaydiumTheorems.RunSound | quote/raydium/swap_quote.go:114-138 | Every run against an honouring provider ends with the input spent, the limit met or no stop known; the price moves only forward and within the limit; all it paid, fills and fees included, is within the starting spot price. |
| RaydiumTheorems.StopsAdvance | quote/raydium/swap_quote.go:128-136 | No run comes back to a tick: each stop lies strictly past the one before, so each is matched and crossed at most once. |
| RaydiumTheorems.FillLockstep | quote/raydium/limit_order.go:16-63 | Against the same book more input fills the same orders, or the smaller input was used up and bought no more. |
| RaydiumTheorems.StepOnceLockstep | quote/raydium/swap_quote.go:163-208 | Two runs differing only in remaining input decide every iteration alike until the smaller is spent. |
| RaydiumTheorems.RunMonotone | quote/raydium/swap_quote.go:114-208 | Whole-run monotonicity with limit orders, fee on output and dynamic fee: if the larger input can be quoted so can the smaller, and it buys no more; the two draw the same or the smaller is spent, so without resting orders the larger never draws less. |
| RaydiumTheorems.FillDrawsNoLess | quote/raydium/limit_order.go:16-63 | When more input draws no less from a book at a tick: exactly unless the smaller exceeds the whole book's cost yet rounds to no more than the book, and the larger does buy it out; that smaller input is drawn in full. |
| RaydiumTheorems.StepDust | quote/raydium/swap_quote.go:163-208 | In one iteration the larger input draws less exactly when the smaller reaches its boundary with such dust left. |
| RaydiumTheorems.RunDust | quote/raydium/swap_quote.go:114-208 | Where the larger of two inputs draws less in all, the smaller run reaches an iteration that meets dust. |
| RaydiumTheorems.RunSpends | quote/raydium/swap_quote.go:114-208 | A run that meets dust spends its whole input. |
| RaydiumTheorems.RunFault | quote/raydium/swap_quote.go:114-233 | A run fails only at an iteration it reaches, on an output past a u64 or a liquidity turned negative; never on the input, the price or the book. |
| RaydiumQuote.QuoteNeverBeatsSpot | quote/raydium/swap_quote.go:106-138 | A quote consumes no more than its input and never beats the pool's spot price. |
| RaydiumQuote.QuoteRefuses | quote/raydium/swap_quote.go:114-120 | A pool is invalid exactly without a price or liquidity, and refuses to swap exactly with bit 4 of its status set; no run ends in either error. |
| RaydiumQuote.QuoteStarts | quote/raydium/swap_quote.go:140-158 | A run starts from the pool's own figures; it has a dynamic fee unless the record is all zero, and then the group holding the pool's tick with the reference decayed to the present. |
| RaydiumQuote.QuoteOfOneSegment | quote/raydium/swap_quote.go:44-138 | The exact quote of a pool without a dynamic fee whose first stop is its last, for both directions and all three fee settings: one step towards that stop at the pool's rate and one match there. |
| RaydiumQuote.QuoteMonotone | quote/raydium/swap_quote.go:106-138 | More input never buys less, and the smaller quote succeeds wherever the larger does. |
| RaydiumQuote.QuoteConsumption | quote/raydium/swap_quote.go:106-138 | More input consumes no less unless the smaller quote meets dust on its way; that one consumes all its input, and the larger consumes less exactly when it also ends short of that. Without resting orders there is no such case. |
| RaydiumQuote.ConsumedInputNotMonotone | quote/raydium/limit_order.go:16-63 | Over one order of 99 at tick 0, a quote of 101 consumes 101 and a quote of 102 consumes 100, for the same output. |
| RaydiumQuote.SwapState.constructor | quote/raydium/swap_quote.go:140-158 | The new object's state is the run's starting state, reference already decayed. |
| RaydiumQuote.SwapState.UpdateVolatilityAccumulator | quote/raydium/dynamic_fee.go:53-69 | The object's new state is the charged one. |
| RaydiumQuote.SwapState.Book | quote/raydium/limit_order.go:75-107 | Booking a fill in place gives the state of the checked subtraction and addition, or its error. |
| RaydiumQuote.SwapState.FillLimitOrders | quote/raydium/limit_order.go:16-63 | Matching in place gives the matched state and the orders left. |
| RaydiumQuote.SwapState.UpdateDynamicFeeIndex | quote/raydium/dynamic_fee.go:128-154 | Advancing in place gives the advanced state. |
| RaydiumQuote.SwapState.Iterate | quote/raydium/swap_quote.go:163-208 | One iteration on the fields is one step of the run. |
| RaydiumQuote.SwapState.WalkToBoundary | quote/raydium/swap_quote.go:160-208 | The inner loop ends and leaves the fields as the run's walk, error for error. |
| RaydiumQuote.QuoteExactInDetailed | quote/raydium/swap_quote.go:106-138 | The outer loop ends and returns exactly the specified quote. |
| RaydiumTracking.StepTracks | quote/raydium/swap_quote.go:163-208 | Short of the boundary every iteration leaves the group holding the next price movement. |
| RaydiumTracking.StepSyncs | quote/raydium/dynamic_fee.go:128-154 | Reaching a boundary on the tick-spacing grid with input left, the group is the one of the tick crossed to, after a skip or not. |
| RaydiumTracking.CrossedIsOnTheWay | quote/raydium/dynamic_fee.go:106-126 | Every group whose inside a tracked price movement touches lies between the current group and the last one it gets to. |
| RaydiumTracking.SkipIsFlatIff | quote/raydium/dynamic_fee.go:106-112 | A step that skips its bound with liquidity charges every group its price crosses that group's own rate exactly when the group on its way closest to the reference has the charged rate. |
| RaydiumTracking.SkipAwayIsFlat | quote/raydium/dynamic_fee.go:106-112 | A skip moving away from the reference is flat however far its price goes. |
| RaydiumTracking.RunTracks | quote/raydium/swap_quote.go:114-208 | At every iteration of every run over stops on the tick-spacing grid the group holds the price, and a skip is flat under exactly that guard. |
| RaydiumTracking.QuoteTracks | quote/raydium/swap_quote.go:106-158 | The same for every quote of a consistent pool whose fee reference is a group index. |
| RaydiumTracking.QuoteRates | quote/raydium/dynamic_fee.go:53-100 | Every iteration a quote reaches is charged the least whole rate that pays the pool's base rate and covers the surcharge at its group's distance from the decayed reference; with nothing to control, or without a dynamic fee, the pool's own rate. |
| RaydiumTracking.SkipBackChangesRate | quote/raydium/dynamic_fee.go:106-112 | A quote in its filter period, one group below its reference and saturated, whose first step is charged 100 inside a group of rate 0. |
| RaydiumWalker.Walk.FlatIsNearest | quote/raydium/tick_array.go:85-118 | Over arrays a span apart, the flat search answers with a tick that has liquidity or resting orders, at or below fromTick when selling token_0 and above it otherwise, with its own net, flag and orders, and none nearer; and with nothing exactly when there is none. |
| RaydiumWalker.Walk.ArraysSpaced | quote/raydium/tick_array.go:35-38 | A loader keeping its contract gives arrays at least a span apart in the swap direction. |
| RaydiumWalker.Walk.ArraysFollow | quote/raydium/tick_array.go:134-167 | The first array is loaded from the start of the pool's own, every other one from the span next to the one before in the swap direction; the list is short only where the next load finds nothing or fails. |
| RaydiumWalker.TickArrayWalker.Array | quote/raydium/tick_array.go:134-157 | The i-th array is loaded on first use, the held list stays a prefix of the walk, and the flags say why it stopped. |
| RaydiumWalker.TickArrayWalker.SearchArray | quote/raydium/tick_array.go:100-132 | The two search loops find what the recursive search of one array finds. |
| RaydiumWalker.TickArrayWalker.Next | quote/raydium/tick_array.go:85-98 | For queries that move with the swap, the stateful search ends and answers exactly like the flat one over every array the swap may use, reporting the loader's error otherwise. |
| RaydiumWalker.SwapTickArrayStarts | quote/raydium/tick_array.go:39-52 | The starts of exactly those arrays, in order, and the error that cut them short. |
| RaydiumWalker.WalkerHonours | quote/raydium/swap_quote.go:71-75 | Over arrays within the tick range the walker keeps the provider contract every run theorem assumes. |
| RaydiumWalker.WalkerOnGrid | quote/raydium/tick_array.go:100-132 | Over arrays that start on the tick-spacing grid every stop of the walker lies on it. |
| RaydiumWalker.WalkerQuoteTracks | quote/raydium/swap_quote.go:106-138 | Fee tracking at every iteration of every quote over the walker's own arrays. |
| RaydiumWalker.QuoteOverWalker | quote/raydium/swap_quote.go:106-138 | The loop over the stateful walker ends with exactly the quote over the arrays the swap may use, and a load error is left with the walker. |
| RaydiumWalker.RunQueriesMoveOn | quote/raydium/swap_quote.go:128-136 | While input is left every query of a run starts strictly past the one before. |
| OrcaMath.DeltaAmountAgrees | math/orca/curve_math.go:30-48 | Orca's token-A amount equals Raydium's two-step one, rounded either way. |
| OrcaMath.FixedAgrees | quote/orca/swap_quote.go:251-267 | Orca's input and output deltas equal Raydium's in both directions. |
| OrcaMath.NextAgrees | math/orca/curve_math.go:63-120 | The next-price formulas agree. |
| OrcaMath.PartialMissesTarget | quote/orca/swap_quote.go:194-233 | An input not covering the target never lands on it, so the equality test for a full step is exact. |
| OrcaMath.StepsAgree | quote/orca/swap_quote.go:183-249 | Step equivalence: on every input Orca's step is Raydium's fee-on-input step, failing exactly when the output leaves a u64. |
| OrcaFee.AdaptiveRateIsLeastCover | quote/orca/adaptive_fee.go:123-145 | The surcharge is the least whole rate covering the quadratic one, up to the cap. |
| OrcaFee.TotalIsLeastCover | quote/orca/fee_rate_manager.go:79-89 | The charged rate is the least whole one that pays the static rate and covers the surcharge, up to 10%; without an adaptive fee it is the static rate. |
| OrcaFee.ReferenceDecays | quote/orca/adaptive_fee.go:74-107 | Exactly how the reference decays: refused exactly before either stored time; dropped past an hour of age; left alone within the filter period; the greatest whole share of the accumulator inside the decay period; dropped after. Whatever is not left alone moves to the group and time. |
| OrcaFee.NewFeeDecays | quote/orca/fee_rate_manager.go:30-57 | A new manager exists exactly when its reference can decay, stands in the group of the pool's tick, and holds the reference so decayed. |
| OrcaFee.CoreRange | quote/orca/fee_rate_manager.go:45-66 | Its core range reaches, on both sides of the reference, the least number of groups at which the accumulator is full, kept only inside the tick range and with the prices of its outer edges. |
| OrcaFee.FeeNeverFallsWithDistance | quote/orca/adaptive_fee.go:109-145 | The further the group from the reference, the higher the total fee. |
| OrcaRun.BoundBetween | quote/orca/fee_rate_manager.go:103-139 | A step's bound lies between the price and the boundary. |
| OrcaRun.StepSound | quote/orca/swap_quote.go:194-249 | A step never overdraws, spends everything when it stops short, and stays within spot. |
| OrcaRun.AdvanceSound | quote/orca/fee_rate_manager.go:91-175 | Advancing the manager, after a skip or not, moves the group strictly forward and leaves its edge ahead of the price. |
| OrcaRun.StepOnceSound | quote/orca/swap_quote.go:116-160 | One iteration keeps the position, moves only forward, stays within spot and shrinks the inner measure. |
| OrcaRun.IterationTrades | quote/orca/swap_quote.go:116-160 | What an iteration books, exactly: one step along the curve to its bound with the charged rate on the input. |
| OrcaRun.WalkCrossesOnce | quote/orca/swap_quote.go:116-181 | A walk changes the liquidity by its boundary's signed net exactly when it reaches the boundary, and only once. |
| OrcaRun.RunSound | quote/orca/swap_quote.go:103-163 | Every run against an honouring provider ends, moves only forward and within the limit, and is within the starting spot price, under either fee. |
| OrcaTheorems.StepOnceLockstep | quote/orca/swap_quote.go:116-160 | Two runs differing only in remaining input decide every iteration alike until the smaller is spent. |
| OrcaTheorems.RunMonotone | quote/orca/swap_quote.go:103-163 | Whole-run monotonicity under a static or an adaptive fee: if the larger input can be quoted so can the smaller, which buys no more and consumes no more. |
| OrcaTheorems.RunFault | quote/orca/swap_quote.go:103-181 | A run fails only at an iteration it reaches, on an output past a u64 or a liquidity turned negative. |
| OrcaTracking.StepTracks | quote/orca/swap_quote.go:116-160 | Short of the boundary every iteration leaves the group holding the next price segment. |
| OrcaTracking.StepSyncs | quote/orca/fee_rate_manager.go:141-175 | Reaching an aligned boundary with input left, the group is the one of the tick crossed to. |
| OrcaTracking.Saturated | quote/orca/fee_rate_manager.go:45-66 | From the core range's edge away the accumulator sits at its cap. |
| OrcaTracking.SkipIsFlat | quote/orca/fee_rate_manager.go:108-139 | A skipped segment with liquidity crosses only groups carrying one and the same fee rate. |
| OrcaTracking.RunTracks | quote/orca/swap_quote.go:103-163 | At every step of every run whose stops are aligned until the last, the group holds the next price segment and skips are flat. |
| OrcaStops.CostSplits | math/orca/curve_math.go:30-61 | Splitting a move never makes it cheaper. |
| OrcaStops.GainSplits | math/orca/curve_math.go:30-61 | Splitting a move never pays more. |
| OrcaStops.OnceKeepsMost | quote/orca/swap_quote.go:236-249 | Paying once with one rounded fee leaves at least whatever exact shares could leave. |
| OrcaStops.StaticReaches | quote/orca/swap_quote.go:106-161 | Under a flat rate a covered stop takes one step drawing the exact cost and its fee. |
| OrcaStops.StaticStops | quote/orca/swap_quote.go:106-161 | An uncovered stop takes one step that spends everything and stops short. |
| OrcaStops.RunIsListRun | quote/orca/swap_quote.go:55-59 | The program's loop over a searched list of stops is the run over the list itself. |
| OrcaStops.InsertedStopsPayLess | quote/orca/swap_quote.go:106-161 | Inserting uninitialized stops ahead of the last keeps a succeeding run succeeding, finishing if it finished, and never raises its output, by simulation between common stops. |
| OrcaStops.LaterStopsPayMore | quote/orca/swap_quote.go:106-161 | Stops past the last change nothing for a run that spent its input or met the limit; any other run goes on over exactly those stops from where it stood, and is paid no less. |
| OrcaStops.FinishedNeverPaysMore | quote/orca/swap_quote.go:106-161 | Uninitialized stops added anywhere, past the last included, never raise the output of a run that finished without them. |
| OrcaStops.AddedStopsBound | quote/orca/swap_quote.go:106-161 | A run that did not finish is paid, whatever stops are added, at most what one stop at the end of the tick range would add. |
| OrcaStops.ExtraStopsIff | quote/orca/swap_quote.go:106-161 | Added stops never pay more exactly when the run finishes without them or a stop at the end of the range would gain nothing from where it stands. |
| OrcaQuote.ReferenceStaysCapped | quote/orca/adaptive_fee.go:74-107 | Decaying the reference keeps it under the cap and in the tick range. |
| OrcaQuote.AccumulatorStaysCapped | quote/orca/adaptive_fee.go:109-121 | Updating the accumulator for any group keeps the oracle figures under their cap. |
| OrcaQuote.NewFeeSound | quote/orca/fee_rate_manager.go:30-68 | A new manager names the pool's own group and its core range prices its edges. |
| OrcaQuote.QuoteNeverBeatsSpot | quote/orca/swap_quote.go:72-164 | A quote consumes no more than its input and never beats the pool's spot price. |
| OrcaQuote.QuoteMonotone | quote/orca/swap_quote.go:72-164 | More input never buys less and never consumes less, and the smaller quote succeeds wherever the larger does. |
| OrcaQuote.QuoteTracks | quote/orca/swap_quote.go:72-164 | Fee tracking holds at every step of every quote of a consistent pool with aligned stops. |
| OrcaQuote.QuoteRates | quote/orca/fee_rate_manager.go:30-89 | Every step of every quote is charged the pool's own rate, or with an adaptive fee the least whole rate that pays it and covers the surcharge at the step's distance from the stored reference, exactly decayed. |
| OrcaQuote.QuoteRefuses | quote/orca/swap_quote.go:80-101 | A pool is invalid exactly without a price or liquidity, or with an adaptive fee whose stored times lie after the present; no run ends in that error. |
| OrcaQuote.QuoteOfOneSegment | quote/orca/swap_quote.go:72-164 | The exact quote of a static-fee pool whose first stop is its last, in both directions: one step towards that stop at the pool's rate. |
| OrcaQuote.ExtraStopsNeverPayMore | quote/orca/swap_quote.go:72-164 | On a static-fee pool, uninitialized boundaries added anywhere never raise AmountOut exactly when the quote finishes without them or would gain nothing from a stop at the end of the range; a quote that consumes all its input is always safe. |
| OrcaQuote.LaterStopCanPayMore | quote/orca/swap_quote.go:72-164 | A pool whose quote pays nothing without stops and something with one uninitialized stop. |
| OrcaQuote.FeeRateManager.constructor | quote/orca/fee_rate_manager.go:30-68 | The new manager is the specified one, core range included. |
| OrcaQuote.FeeRateManager.BoundedSqrtPriceTarget | quote/orca/fee_rate_manager.go:103-139 | The bound and skip flag the specification gives. |
| OrcaQuote.FeeRateManager.AdvanceTickGroupAfterSkip | quote/orca/fee_rate_manager.go:141-175 | The fields after a skip are the realigned, shifted manager's. |
| OrcaQuote.Iterate | quote/orca/swap_quote.go:116-160 | One inner iteration over the locals and the manager is one step of the run. |
| OrcaQuote.WalkToBoundary | quote/orca/swap_quote.go:116-160 | The inner loop ends and agrees with the run's walk, error for error. |
| OrcaQuote.QuoteExactInDetailed | quote/orca/swap_quote.go:72-164 | The outer loop ends and returns exactly the specified quote. |
| OrcaWalker.ValidIff | quote/orca/tick_array.go:63-74 | A multiple of the span is a valid start exactly from the left-edge array to the greatest tick. |
| OrcaWalker.StartsFollow | quote/orca/tick_array.go:39-61 | The starts of a swap follow each other from its first array with none missing, and stop short of three only at the edge of the range. |
| OrcaWalker.FirstArrayHolds | quote/orca/tick_array.go:39-61 | The first array is the one holding the pool's tick when token A is sold, and the one holding the tick a spacing above it otherwise. |
| OrcaWalker.Walk.FindsNearest | quote/orca/tick_array.go:104-161 | No initialized tick of the swap's arrays from the search position on is nearer than the answer. |
| OrcaWalker.AnswerIsNearest | quote/orca/tick_array.go:104-161 | For queries that move with the swap: no initialized tick at or past fromTick is nearer than the answer, and the edge is answered only when none lies in range. |
| OrcaWalker.AnswerIsSound | quote/orca/tick_array.go:104-143 | Every answer is an initialized tick of the swap's arrays or their far edge; nothing only past them; an error only from a failed load. |
| OrcaWalker.TickArrayWalker.LoadArray | quote/orca/tick_array.go:180-199 | After a load the held array is what its start reads as, a missing one reading as empty. |
| OrcaWalker.TickArrayWalker.SearchArray | quote/orca/tick_array.go:145-161 | The two search loops find what the recursive search finds. |
| OrcaWalker.TickArrayWalker.Next | quote/orca/tick_array.go:104-143 | The walker holding one array at a time ends and answers exactly as the search over all of them; the first load error is kept and stops later queries. |
| OrcaWalker.WalkerHonours | quote/orca/swap_quote.go:55-59 | The walker keeps the provider contract every run theorem assumes. |
| OrcaWalker.WalkerAligned | quote/orca/tick_array.go:104-161 | Where the group size divides the tick spacing, every boundary the walker answers but the last is group-aligned. |
| OrcaWalker.WalkerQuoteTracks | quote/orca/swap_quote.go:72-164 | Over the walker's own arrays, with a group size dividing the tick spacing, the group holds the next price segment at every step of every quote and skips are flat. |
| OrcaWalker.RunsAskInRange | quote/orca/swap_quote.go:106-113 | Short of its limit a run only asks from ticks inside the tick range. |
| OrcaWalker.RunQueriesMoveOn | quote/orca/swap_quote.go:141-151 | While input is left every query of a run starts strictly past the one before. |
| OrcaWalker.QuoteOverWalker | quote/orca/swap_quote.go:72-164 | The loop over the stateful walker ends with exactly the quote over the pure search, and a load error that cut it short is left with the walker. |
| FixedPow.SquareAndMultiply | math/dlmm/u64x64.go:49-66 | The 19-bit loop computes the truncated product, and neither checked multiplication can fail. |
| FixedPow.Pow | math/dlmm/u64x64.go:19-81 | Pow with its range checks, normalisation and inversion returns the specified power or error. |
| FixedPow.NextExponentLowers | math/dlmm/u64x64.go:49-66 | One more in the exponent never raises a fraction's truncated power, by carry induction. |
| FixedPow.ProductAntitone | math/dlmm/u64x64.go:49-66 | The truncated power of a fraction is antitone over all exponents below 2^19. |
| FixedPow.PowerMonotone | math/dlmm/u64x64.go:19-81 | Through the reciprocals and the sign change: powers of a base of at least one never fall, of a fraction never rise, wherever both calls succeed. |
| FixedPow.ProductErrorBound | math/dlmm/u64x64.go:41-70 | Before the final inversion the result is at most 2^64*(b/2^64)^n and short of it by at most n-1 units. |
| FeeSchedule.FeeInPeriodFails | math/damm/fee_math.go:19-46 | The exponential schedule fails exactly when a period takes off more than the whole or the compounded factor has vanished; its fee never exceeds the cliff. |
| FeeSchedule.FeeInPeriodFalls | math/damm/fee_math.go:19-106 | A later period never charges more. |
| FeeSchedule.FeeTracksCompounding | math/damm/fee_math.go:19-46 | The exponential fee is at most cliff times the ideal power of what a period leaves, and below it by at most one unit plus the power's own error share. |
| FeeSchedule.LinearFee | models/damm_base_fee_schedule.go:14-34 | The linear mode, schedules without periods included: each period over takes the same amount off the cliff, down to nothing. |
| FeeSchedule.ExponentialFee | models/damm_base_fee_schedule.go:14-34 | The exponential mode: what a period leaves is the rest of its basis points rounded up; the fee fails exactly without such a rest or with a vanished factor, is the cliff at first, and then follows the compounding within its stated error. |
| FeeSchedule.BaseFeeByMode | models/damm_base_fee_schedule.go:14-34 | A schedule without periods charges the cliff in both modes, the rate limiter has no single fee, and no further mode is answered. |
| FeeSchedule.PeriodGrows | models/damm_base_fee_schedule.go:36-48 | The elapsed period never falls as time advances. |
| FeeSchedule.PeriodAdjoint | models/damm_base_fee_schedule.go:36-48 | A period is reached exactly when it is the zeroth, or the schedule has it and that many whole frequencies have passed since activation. |
| FeeSchedule.BaseFeeNeverRises | models/damm_base_fee_schedule.go:14-48 | The base fee never rises as the current point advances and never exceeds the cliff, linear or exponential, wherever both calls succeed. |
| RateLimiter.WalkByQuotient | models/damm_rate_limiter.go:63-111 | Walking an input chunk by chunk charges the summed rates of the whole chunks and the rest at the next rate. |
| RateLimiter.ClosedFormIsWalk | models/damm_rate_limiter.go:45-111 | The closed form equals the chunk walk for every input exactly when the cap is not below the cliff or nothing is swapped. |
| RateLimiter.RateInBasisPoints | models/damm_rate_limiter.go:9-78 | The rate of chunk k, out of 10^9: the cliff and k increments in basis points, but no more than the cap in basis points. |
| RateLimiter.FlatFee | models/damm_rate_limiter.go:63-86 | Without a reference amount, an increment or room under the cap, and within the first chunk, the whole input is charged the cliff, rounded up once; no other mode has such a fee. |
| RateLimiter.FeeIsWalkRoundedOnce | models/damm_rate_limiter.go:63-125 | The fee in tokens is the walk's total in parts of 10^9 rounded up once, or out of range exactly when that leaves a u64. |
| DammCompounding.SplitConservesModulo | quote/damm/fees.go:34-74 | Splitting a fee conserves it modulo 2^64 whatever the shares. |
| DammCompounding.SplitConserves | quote/damm/fees.go:34-74 | With no share above the whole the split cannot fail and adds up exactly. |
| DammCompounding.SplitShares | quote/damm/fees.go:34-74 | Each share of a split is the greatest its percentage covers: the protocol's of the fee, the referrer's of the protocol's, the compounding one of the rest. |
| DammCompounding.CurveCostAdjoint | quote/damm/compounding_quote.go:10-24 | Before fees, exact-out names the least curve input whose unwrapped payout reaches the wanted output, for all reserves and errors included. |
| DammCompounding.CurveOutput | quote/damm/compounding_quote.go:10-16 | What the checked curve pays: the unwrapped payout while the reserve sum fits, else an error or at least the whole reserve; a pool empty on the input side gives its whole output away. |
| DammCompounding.DirectionsMirror | quote/damm/compounding_quote.go:10-24 | Selling B is selling A with the tokens exchanged, for both quotes. |
| DammCompounding.ExactInLaw | quote/damm/compounding_quote.go:26-98 | Exact-in in the token names, per direction and fee side: the net amount and the payout are the greatest that the fee's and the curve's products cover, A paid out of B's reserve and B out of A's. |
| DammCompounding.ExactOutFees | quote/damm/compounding_quote.go:100-186 | Exact-out reports the wanted output and a fee that is what the curve does not see of the input or the trader does not get of the payout. |
| DammCompounding.ExactOutLaw | quote/damm/compounding_quote.go:100-186 | Exact-out in the token names, per direction and fee side: an amount is enough exactly when the curve pays the wanted output, grossed up when the fee is on it, for what the fee leaves of the amount. |
| DammCompounding.ExactInParts | quote/damm/compounding_quote.go:26-98 | Exact-in fails exactly with the curve; its fee is what the curve does not see or the trader does not get, and nothing else. |
| DammCompounding.ExactOutParts | quote/damm/compounding_quote.go:100-186 | Exact-out fits within an amount exactly when the curve input it needs fits within what exact-in of that amount sends to the curve. |
| DammCompounding.ExactOutIsLeast | quote/damm/compounding_quote.go:100-186 | Exact-out sells an output for at most an amount exactly when the output is no more than the best one the unwrapped curve gives for that amount after the fee; both directions, both fee sides, all reserves, errors included. |
| DammCompounding.ExactInPaysBest | quote/damm/compounding_quote.go:26-98 | A succeeding exact-in never pays less than that best output, and pays exactly that while the input reserve is not empty and the sum fits: with the fee on the input, only then. |
| DammCompounding.AdjointIff | quote/damm/compounding_quote.go:26-186 | Exact-out is the adjoint of exact-in at an amount, over every wanted output, exactly when exact-in succeeds, the output reserve is not empty and it pays the best output. |
| DammCompounding.ExactOutAdjoint | quote/damm/compounding_quote.go:26-186 | With non-empty reserves whose sum with the net input fits a u64 the two quotes are adjoint; with the fee on the input they are so only then. |
| DammCompounding.WrappedOrEmptyBreaksAdjunction | quote/damm/compounding_quote.go:10-24 | A pair of quotes past a wrapped sum, and one over an empty input reserve, that are not adjoint. |
| DammCompounding.FeeCanSwallowTheWrap | quote/damm/compounding_quote.go:26-98 | With the fee on the output the quotes can be adjoint although the sum wraps. |
| DammCompounding.QuotesRoundTrip | quote/damm/compounding_quote.go:26-186 | For all reserves exactIn(exactOut(o)) pays at least o where both succeed, and exactOut(exactIn(a)) costs at most a exactly when the two are adjoint at a. |
| DammCompounding.ExactInConserves | quote/damm/compounding_quote.go:26-98 | For all reserves the fees add up to what the curve does not see or the trader does not get, and the product of reserves never shrinks exactly when the sum fits or the output reserve was empty. |
| DlmmMath.ComputePriceFromID | math/dlmm/price_math.go:18-33 | The uncached price computation returns the specified price or error. |
| DlmmMath.PriceIsPositive | math/dlmm/price_math.go:18-33 | A price that exists is positive and within a u128. |
| DlmmMath.PriceNeverFalls | math/dlmm/price_math.go:18-33 | The price is non-decreasing in the bin id for every bin step, wherever both are defined. |
| DlmmMath.OppositeBinsAreReciprocal | math/dlmm/price_math.go:18-33 | Bins on opposite sides of zero price each other's reciprocal rounded down, and bin zero prices one. |
| DlmmMath.BinPriceTracks | math/dlmm/price_math.go:18-33 | What a bin price is: the base is one and the bin step in basis points rounded down; below bin zero the price is the power of the inverse base, too low by less than one unit a bin, and above it what the opposite bin's power goes into 2^128; missing exactly past a u128, past 2^19 bins or where the power vanishes. |
| DlmmMath.BinAdjoint | quote/dlmm/bin_quote.go:29-45 | An input buys `out` at a bin price exactly when it covers the rounded-up cost of `out`. |
| DlmmMath.CheckedAmounts | math/dlmm/u128x128.go:10-61 | The checked u128 conversions give the exact amounts, failing exactly when those leave a u64. |
| DlmmMath.FeesAdjoint | quote/dlmm/fees.go:14-41 | The fee out of an amount always exists and fits in it; a net amount with its own fee on top fits exactly when it is within what the fee leaves. |
| DlmmSwap.WholeBin | quote/dlmm/swap_quote.go:136-190 | A bin whose cost is below the net input is sold whole for its grossed-up cost. |
| DlmmSwap.PartialBin | quote/dlmm/swap_quote.go:136-190 | Otherwise everything is spent on what the net input buys, up to the reserve. |
| DlmmSwap.BinTrades | quote/dlmm/swap_quote.go:136-190 | What a bin trades, exactly, in both directions and with the fee on either side: all of it for the least input that leaves its exact price after the fee, or as much as the net input buys; a fee on the output comes off what is paid. |
| DlmmSwap.BinSound | quote/dlmm/swap_quote.go:136-190 | A bin never draws more than the input, pays more than its reserve or beats its price, and fails exactly when its whole cost leaves a u64. |
| DlmmSwap.BinLockstep | quote/dlmm/swap_quote.go:136-190 | Two inputs at one bin do the same unless the smaller ends there, paid no more. |
| DlmmSwap.RunOnlyPays | quote/dlmm/swap_quote.go:78-134 | A run never pays more in total than the reserves ahead of it. |
| DlmmSwap.RunSound | quote/dlmm/swap_quote.go:78-134 | Every run ends, consumes no more than its input, and in total never beats the price of any bin at or before its start. |
| DlmmSwap.LeftoverMeansEmptied | quote/dlmm/swap_quote.go:78-134 | No bin is passed over, on either fee side: a run pays at most what the output reserves up to the first gap or the edge are worth after the fee at each bin, and exactly that when input is left over. |
| DlmmSwap.PayoutWithinReserves | quote/dlmm/swap_quote.go:78-134 | That worth is the reserves themselves with the fee on the input and never exceeds them. |
| DlmmSwap.RunFindsFirst | quote/dlmm/swap_quote.go:88-119 | A run goes straight to the first bin with anything to sell, which has a price if the run succeeds, and does nothing when there is none. |
| DlmmSwap.RunJump | quote/dlmm/swap_quote.go:78-134 | One more unit of input never adds more than a u64 to a run's true total, whatever the fees. |
| DlmmSwap.RunMonotone | quote/dlmm/swap_quote.go:78-134 | The runs of two inputs stay in step until the smaller is spent, so its true total is no larger and it succeeds wherever the larger does. |
| DlmmSwap.VariableRateIsLeastCover | quote/dlmm/swap_quote.go:239-256 | The variable rate is the least whole rate covering the quadratic surcharge. |
| DlmmSwap.TenToThe | quote/dlmm/swap_quote.go:223-237 | The power of ten in the base fee is the power of ten. |
| DlmmSwap.TotalIsLeastCover | quote/dlmm/swap_quote.go:223-256 | The charged rate is the least whole one that pays the base fee, factor times step times ten to the power plus one, and covers the variable one, up to 10%. |
| DlmmSwap.VisitCharges | quote/dlmm/swap_quote.go:105-119 | A bin with anything to sell is visited at exactly that rate at the bin's distance from the reference. |
| DlmmSwap.VisitTrades | quote/dlmm/swap_quote.go:100-119 | A visit trades nothing without the token bought, Y when X is sold and X otherwise, and else exactly what the bin trades at its price; it fails exactly without a price or when the whole bin's cost leaves a u64. |
| DlmmSwap.FeeNeverFallsWithDistance | quote/dlmm/swap_quote.go:208-256 | The further the active bin from the reference, the higher the total fee. |
| DlmmSwap.ReferenceDecays | quote/dlmm/swap_quote.go:192-206 | Exactly how the reference decays: untouched within the filter period; past it the active bin, with the greatest whole share of the accumulator inside the decay period and zero after. |
| DlmmQuote.QuoteNeverBeatsActivePrice | quote/dlmm/swap_quote.go:76-134 | A quote consumes no more than its input, pays no more than the reserves ahead and never beats the price of the first bin with anything to sell, nor the active bin's; with nothing to sell it does nothing. |
| DlmmQuote.QuoteStarts | quote/dlmm/swap_quote.go:76-134 | How a quote starts, for both directions and fee modes: the first visit is at the active bin over the decayed references; it is the whole quote when it uses the input up or the bin is the last of the range, and otherwise the rest goes to the next bin, one down for Y and one up for X. |
| DlmmQuote.RunUnfolds | quote/dlmm/swap_quote.go:88-131 | And so every later turn of the run. |
| DlmmQuote.QuoteMonotone | quote/dlmm/swap_quote.go:76-134 | More input never buys less in true total, and the smaller quote succeeds wherever the larger does; the reported amounts keep that order while the reserves ahead after fees fit a u64. |
| DlmmQuote.OrderedIffUnwrapped | quote/dlmm/swap_quote.go:76-134 | Every two quotes up to a limit are reported in the order of their inputs exactly when the running total of the limit's own quote never leaves a u64. |
| DlmmQuote.UnfittingReservesBreakOrder | quote/dlmm/swap_quote.go:118 | Two full bins where one more unit of input turns the largest quote into none. |
| DlmmQuote.SwapPool.UpdateReferences | quote/dlmm/swap_quote.go:192-206 | The fields after the decay are the specified ones. |
| DlmmQuote.SwapPool.UpdateVolatilityAccumulator | quote/dlmm/swap_quote.go:208-221 | The fields after the update are the specified ones. |
| DlmmQuote.SwapPool.FillBin | quote/dlmm/swap_quote.go:105-119 | One bin of the loop is one visit of the run, error for error. |
| DlmmQuote.QuoteExactInDetailed | quote/dlmm/swap_quote.go:76-134 | The loop over bins ends and returns exactly the specified quote, its total reported modulo 2^64. |
| DlmmBin.TradeSound | quote/dlmm/bin_quote.go:47-107 | The whole bin for its exact gross price, or everything for what the net input buys up to the reserve; it fails exactly when that gross price, or what the net input is worth, leaves a u64. |
| DlmmBin.BinQuoteIsTrade | quote/dlmm/bin_quote.go:47-156 | The reported amounts are exactly that trade's, in both directions, and the protocol's share of the fee and the host's share of that are each rounded down. |
| DlmmBin.BinQuoteFails | quote/dlmm/bin_quote.go:47-156 | A bin quote fails exactly when the trade does, when a share of the fee or the new reserve leaves a u64, or when the host's share exceeds the protocol's. |
| DlmmBin.BinImplementationsAgree | quote/dlmm/bin_quote.go:47-107 | The two bin implementations give the same output and consume amounts differing by at most one, with the exact condition for the difference. |
| DlmmBin.SwapKeepsBinValue | quote/dlmm/bin_quote.go:47-156 | A swap moves exactly what it reports, splits its fee without loss, and never lowers price*X + 2^64*Y. |
| PriceCache.KeyInjective | math/dlmm/price_cache.go:31-34 | No two argument pairs share a key. |
| PriceCache.PriceSlot | math/dlmm/price_cache.go:36-43 | Every key hashes into the table. |
| PriceCache.Cache.CachedPriceFromID | math/dlmm/price_cache.go:45-68 | Every call returns a fresh copy of exactly the uncached price, or its error, and keeps the table sound. |
| PriceCache.Overwrite | math/dlmm/price_cache.go:12-14 | A caller overwriting an integer it was given leaves the table sound. |
| PriceCache.StepKeepsInv | math/dlmm/price_cache.go:45-68 | Every atomic step, whoever takes it, keeps stored values private and right. |
| PriceCache.Transparent | math/dlmm/price_cache.go:45-68 | In every interleaving, a returning call returns the uncached answer for its own arguments at an address no one else has. |
| PriceCache.OverwritesAreHarmless | math/dlmm/price_cache.go:12-14 | An overwrite never changes what the table answers for any key. |

## Left out

- TickMath.RaydiumTickAt: stands for TickFromSqrtPrice by its documented result, the greatest tick whose price is at or below the argument; the logarithm and its error analysis are not modelled.
- TickMath.OrcaTickAt: stands for TickIndexFromSqrtPrice in the same way.
- RaydiumRun.AdvanceSound: tick and group indexes are unbounded; the int32 product of group index and tick spacing only wraps after more than thirty thousand unaligned stops.
- OrcaQuote.NewFeeSound: the int32 products of group index and group size at the core range's edges are not wrapped.
- DammCompounding.ExactOutAdjoint: with the fee on the output a sum that wraps does not decide it, since the fee can swallow the difference; AdjointIff has the exact condition for both sides.
- DlmmQuote.QuoteExactIn: the visited bin-array indices are not modelled; the clock difference is not wrapped to an int64.
- FixedPow.Pow: also stands for the DAMM Pow, which runs the same loop and fails on the same arguments with its first two checks in another order.
- RaydiumWalker.TickArrayWalker.Next: start indexes are unbounded integers and the number of arrays is not negative.
- PriceCache.Step: memory is a map from addresses to integers, allocation picks an unused one, and the locks make each table access one step; a call that fails to compute stores nothing.
- The `updateMajorSwapTimestamp` bookkeeping of Orca's oracle: it runs after a swap and no quote reads it.
- `RateLimiterApplies`, the gate in front of the rate limiter: one comparison per line.
- Account decoders, discriminators, program-derived addresses and the constructors that read accounts.
- The constant-product venues (pump, pumpbc, Raydium AMM v4 and CPMM, FluxBeam), fee-tier selection, Token-2022 parsing and reserve netting: single formulas.
- The DAMM variable fee and its concentrated single-range quote: weaker copies of the step lemmas above.
- The market-cap fee schedulers: the program refuses them, and so does FeeSchedule.
- `SqrtU256`: no quote modelled here uses it.
- Bit equality with the on-chain programs: not visible from this repository.
