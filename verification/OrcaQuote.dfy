/** The Orca exact-in quote as the program runs it: local amounts and a fee-rate manager updated in
    place by two nested loops, proved equal to the run it specifies. */
module OrcaQuote {
  import opened Rounding
  import opened Wrappers
  import opened MachineIntegers
  import opened TickTables
  import opened TickMath
  import opened OrcaMath
  import opened OrcaFee
  import opened OrcaRun
  import opened OrcaStops
  import opened OrcaTheorems
  import opened OrcaTracking
  import R = RaydiumMath

  /** The decoded pool. Absent prices or liquidity stand for nil pointers. */
  datatype Pool = Pool(
    sqrtPrice: Option<nat>,
    liquidity: Option<nat>,
    tickCurrentIndex: int,
    feeRate: nat,
    adaptiveFee: Option<Info>,
    timestamp: nat
  ) {
    /** What the program keeps true of a live pool and its oracle. */
    ghost predicate Consistent() {
      && feeRate < FEE_RATE_MUL
      && (sqrtPrice.Some? ==> Bracketed(tickCurrentIndex, sqrtPrice.value))
      && MIN_TICK - 1 <= tickCurrentIndex <= MAX_TICK
      && (adaptiveFee.Some? ==> InfoConsistent(adaptiveFee.value))
    }
  }

  /** Neither volatility figure exceeds the cap, decay does not grow, the group size is a tick spacing,
      and the reference is a group of the tick range. */
  predicate InfoConsistent(info: Info) {
    var c, v := info.constants, info.variables;
    && 0 < c.groupSize <= 0xFFFF
    && c.maxAccumulator < TWO32 && c.reductionFactor <= REDUCTION_DENOMINATOR
    && v.volatilityReference <= c.maxAccumulator && v.accumulator <= c.maxAccumulator
    && GroupInRange(v.groupReference, c.groupSize)
  }

  datatype QuoteResult = QuoteResult(amountOut: nat, amountInConsumed: nat)

  /** Decaying the reference keeps it under the cap and within the tick range. */
  lemma ReferenceStaysCapped(info: Info, tick: int, timestamp: nat)
    requires InfoConsistent(info) && MIN_TICK - 1 <= tick <= MAX_TICK
    ensures var v :=
              info.variables.UpdateReference(FloorIndex(tick, info.constants.groupSize), timestamp, info.constants);
            v.Some? ==> InfoConsistent(info.(variables := v.value))
  {
    var c, v := info.constants, info.variables;
    MulMono(c.reductionFactor, REDUCTION_DENOMINATOR, v.accumulator);
    FloorAdjoint(c.maxAccumulator + 1, v.accumulator * c.reductionFactor, REDUCTION_DENOMINATOR);
  }

  /** Updating the accumulator keeps it under the cap. */
  lemma AccumulatorStaysCapped(info: Info, group: int)
    requires InfoConsistent(info)
    ensures InfoConsistent(info.(variables := info.variables.UpdateAccumulator(group, info.constants)))
  {
  }

  /** A new manager is in sync with the pool's tick and its core range is built over a capped reference. */
  lemma NewFeeSound(pool: Pool, aToB: bool)
    requires pool.Consistent() && pool.sqrtPrice.Some?
    ensures var fee := NewFee(aToB, pool.tickCurrentIndex, pool.timestamp, pool.feeRate, pool.adaptiveFee);
            fee.Some? ==>
              && FeePositioned(fee.value, pool.sqrtPrice.value)
              && CoreBuilt(fee.value)
              && fee.value.staticRate == pool.feeRate
              && (fee.value.adaptive <==> pool.adaptiveFee.Some?)
              && (fee.value.adaptive ==>
                    && fee.value.aToB == aToB && fee.value.constants == pool.adaptiveFee.value.constants
                    && fee.value.group == FloorIndex(pool.tickCurrentIndex, fee.value.constants.groupSize))
  {
    hide OrcaPrice, MaxDelta;
    if pool.adaptiveFee.Some? {
      var info := pool.adaptiveFee.value;
      ReferenceStaysCapped(info, pool.tickCurrentIndex, pool.timestamp);
      var fee := NewFee(aToB, pool.tickCurrentIndex, pool.timestamp, pool.feeRate, pool.adaptiveFee);
      if fee.Some? {
        var f := fee.value;
        Multiples(f.variables.groupReference - MaxDelta(f.constants, f.variables),
                  f.variables.groupReference, f.constants.groupSize);
        Multiples(f.variables.groupReference, f.variables.groupReference + MaxDelta(f.constants, f.variables),
                  f.constants.groupSize);
        EdgeAhead(f, pool.sqrtPrice.value, if aToB then pool.tickCurrentIndex else pool.tickCurrentIndex + 1);
      }
    }
  }

  function NewState(pool: Pool, fee: Fee, amountIn: nat): State
    requires pool.sqrtPrice.Some? && pool.liquidity.Some?
  {
    State(amountIn, 0, pool.sqrtPrice.value, pool.liquidity.value, pool.tickCurrentIndex, fee)
  }

  function QuoteExactIn(pool: Pool, aToB: bool, amountIn: nat, ticks: TickProvider): Result<QuoteResult, Error>
    requires pool.Consistent() && Honours(ticks, aToB) && amountIn <= U64MAX
  {
    hide OrcaPrice, FeePositioned, CoreBuilt;
    if pool.sqrtPrice.None? || pool.liquidity.None? then Err(InvalidPool)
    else
      NewFeeSound(pool, aToB);
      match NewFee(aToB, pool.tickCurrentIndex, pool.timestamp, pool.feeRate, pool.adaptiveFee)
      case None => Err(InvalidPool)
      case Some(fee) =>
        RunSound(NewState(pool, fee, amountIn), aToB, ticks);
        var end :- Run(NewState(pool, fee, amountIn), aToB, ticks);
        Ok(QuoteResult(end.out, amountIn - end.remaining))
  }

  /** A quote never consumes more than it was given and never beats the pool's spot price. */
  lemma QuoteNeverBeatsSpot(pool: Pool, aToB: bool, amountIn: nat, ticks: TickProvider)
    requires pool.Consistent() && Honours(ticks, aToB) && amountIn <= U64MAX
    ensures var quote := QuoteExactIn(pool, aToB, amountIn, ticks);
            quote.Ok? ==>
              && pool.sqrtPrice.Some?
              && quote.value.amountInConsumed <= amountIn
              && R.WithinSpot(quote.value.amountOut, quote.value.amountInConsumed, pool.sqrtPrice.value, aToB)
  {
    hide OrcaPrice, Run, R.WithinSpot, NewFee, FeePositioned, CoreBuilt;
    if pool.sqrtPrice.Some? && pool.liquidity.Some? {
      NewFeeSound(pool, aToB);
      var fee := NewFee(aToB, pool.tickCurrentIndex, pool.timestamp, pool.feeRate, pool.adaptiveFee);
      if fee.Some? {
        RunSound(NewState(pool, fee.value, amountIn), aToB, ticks);
      }
    }
  }

  /** Adaptive-fee tracking for every quote of a consistent pool whose stops are aligned until the last. */
  lemma QuoteTracks(pool: Pool, aToB: bool, amountIn: nat, ticks: TickProvider)
    requires pool.Consistent() && Honours(ticks, aToB) && amountIn <= U64MAX
    requires pool.sqrtPrice.Some? && pool.liquidity.Some? && pool.adaptiveFee.Some?
    requires AlignedUntilLast(ticks, aToB, pool.adaptiveFee.value.constants.groupSize)
    ensures var fee := NewFee(aToB, pool.tickCurrentIndex, pool.timestamp, pool.feeRate, pool.adaptiveFee);
            fee.Some? ==>
              var s := NewState(pool, fee.value, amountIn);
              && Positioned(s, aToB)
              && forall k :: 0 <= k < |Trail(s, aToB, ticks)| ==>
                               OnCourse(Trail(s, aToB, ticks)[k].0, Trail(s, aToB, ticks)[k].1, aToB)
  {
    hide OrcaPrice, Trail, OnCourse, NewFee, FeePositioned, CoreBuilt, AlignedUntilLast;
    NewFeeSound(pool, aToB);
    var fee := NewFee(aToB, pool.tickCurrentIndex, pool.timestamp, pool.feeRate, pool.adaptiveFee);
    if fee.Some? {
      RunTracks(NewState(pool, fee.value, amountIn), aToB, ticks);
    }
  }

  /** The rate of every step of every quote: the pool's own on a static-fee pool; on an adaptive one the rate at the
      step's group's distance from the reference, which is the stored one decayed exactly. */
  lemma QuoteRates(pool: Pool, aToB: bool, amountIn: nat, ticks: TickProvider, step: nat, rate: nat, k: nat)
    requires pool.Consistent() && Honours(ticks, aToB) && amountIn <= U64MAX
    requires pool.sqrtPrice.Some? && pool.liquidity.Some?
    ensures var fee := NewFee(aToB, pool.tickCurrentIndex, pool.timestamp, pool.feeRate, pool.adaptiveFee);
            fee.Some? ==>
              var s, v := NewState(pool, fee.value, amountIn), fee.value.variables;
              && Positioned(s, aToB)
              && (pool.adaptiveFee.Some? ==>
                    var info := pool.adaptiveFee.value;
                    && info.variables.lastReferenceUpdate <= pool.timestamp
                    && info.variables.lastMajorSwap <= pool.timestamp
                    && DecayedTo(info.variables, v, FloorIndex(pool.tickCurrentIndex, info.constants.groupSize),
                                 pool.timestamp, info.constants, k))
              && (step < |Trail(s, aToB, ticks)| ==>
                    var f := Trail(s, aToB, ticks)[step].0.fee;
                    && f.staticRate < FEE_RATE_MUL
                    && (pool.adaptiveFee.None? ==> f.Charged().Rate() == pool.feeRate)
                    && (pool.adaptiveFee.Some? ==>
                          IsRateAt(f.Charged().Rate(), pool.adaptiveFee.value.constants, v,
                                   Distance(v.groupReference, f.group), pool.feeRate, rate)))
  {
    hide OrcaPrice, Trail, NewFee, FeePositioned, CoreBuilt, IsRateAt, Fee.Rate, DecayedTo;
    NewFeeSound(pool, aToB);
    var fee := NewFee(aToB, pool.tickCurrentIndex, pool.timestamp, pool.feeRate, pool.adaptiveFee);
    if pool.adaptiveFee.Some? {
      NewFeeDecays(aToB, pool.tickCurrentIndex, pool.timestamp, pool.feeRate, pool.adaptiveFee.value, k);
    }
    if fee.Some? {
      var s := NewState(pool, fee.value, amountIn);
      RunKeepsFee(s, aToB, ticks);
      if step < |Trail(s, aToB, ticks)| {
        StepCharges(fee.value, Trail(s, aToB, ticks)[step].0.fee, rate);
      }
    }
  }

  /** More input never buys less and never consumes less, and whenever the larger amount can be quoted the
      smaller can too. */
  lemma QuoteMonotone(pool: Pool, aToB: bool, a: nat, b: nat, ticks: TickProvider)
    requires pool.Consistent() && Honours(ticks, aToB) && a <= b <= U64MAX
    requires QuoteExactIn(pool, aToB, b, ticks).Ok?
    ensures QuoteExactIn(pool, aToB, a, ticks).Ok?
    ensures var small, large := QuoteExactIn(pool, aToB, a, ticks).value, QuoteExactIn(pool, aToB, b, ticks).value;
            small.amountOut <= large.amountOut && small.amountInConsumed <= large.amountInConsumed
  {
    hide OrcaPrice, Run, NewFee, FeePositioned, CoreBuilt;
    NewFeeSound(pool, aToB);
    var fee := NewFee(aToB, pool.tickCurrentIndex, pool.timestamp, pool.feeRate, pool.adaptiveFee).value;
    RunMonotone(NewState(pool, fee, a), NewState(pool, fee, b), aToB, ticks);
    RunSound(NewState(pool, fee, a), aToB, ticks);
    RunSound(NewState(pool, fee, b), aToB, ticks);
  }

  /** A pool is invalid exactly without a price or liquidity, or with an adaptive fee whose stored times lie after the
      present; no run ends in that error. */
  lemma QuoteRefuses(pool: Pool, aToB: bool, amountIn: nat, ticks: TickProvider)
    requires pool.Consistent() && Honours(ticks, aToB) && amountIn <= U64MAX
    ensures QuoteExactIn(pool, aToB, amountIn, ticks) == Err(InvalidPool)
       <==> pool.sqrtPrice.None? || pool.liquidity.None?
            || (pool.adaptiveFee.Some?
                && var v := pool.adaptiveFee.value.variables;
                v.lastReferenceUpdate > pool.timestamp || v.lastMajorSwap > pool.timestamp)
  {
    hide OrcaPrice, Run, NewFee, FeePositioned, CoreBuilt, R.OutputDelta;
    if pool.adaptiveFee.Some? {
      NewFeeDecays(aToB, pool.tickCurrentIndex, pool.timestamp, pool.feeRate, pool.adaptiveFee.value, 0);
    }
    PlainFee(aToB, pool.tickCurrentIndex, pool.timestamp, pool.feeRate);
    var fee := NewFee(aToB, pool.tickCurrentIndex, pool.timestamp, pool.feeRate, pool.adaptiveFee);
    if pool.sqrtPrice.Some? && pool.liquidity.Some? && fee.Some? {
      NewFeeSound(pool, aToB);
      if Run(NewState(pool, fee.value, amountIn), aToB, ticks).Err? {
        var at, b := RunFault(NewState(pool, fee.value, amountIn), aToB, ticks);
      }
    }
  }

  /** The quote of a static-fee pool whose first stop is also its last, in both directions: exactly one step along the
      curve towards that stop, at the pool's own rate on the input. */
  lemma QuoteOfOneSegment(pool: Pool, aToB: bool, amountIn: nat, ticks: TickProvider, b: Boundary) returns (last: nat)
    requires pool.Consistent() && Honours(ticks, aToB) && 0 < amountIn <= U64MAX
    requires pool.sqrtPrice.Some? && pool.liquidity.Some? && pool.adaptiveFee.None?
    requires pool.sqrtPrice.value != (if aToB then 4_295_048_016 else 79_226_673_515_401_279_992_447_579_055)
    requires ticks(pool.tickCurrentIndex, aToB) == Some(b)
    requires ticks(if aToB then b.tickIndex - 1 else b.tickIndex, aToB) == None
    ensures var quote := QuoteExactIn(pool, aToB, amountIn, ticks);
            quote.Ok? ==>
              R.TradesTo(last, quote.value.amountInConsumed, quote.value.amountOut, pool.sqrtPrice.value,
                         OrcaPrice(b.tickIndex), pool.liquidity.value, amountIn, pool.feeRate, 0, aToB)
  {
    hide OrcaPrice, StepOnce, Run, R.TradesTo, R.WithinSpot, FeePositioned, CoreBuilt;
    NewFeeSound(pool, aToB);
    var s := NewState(pool, StaticFee(pool.feeRate), amountIn);
    AtBoundary(s, b, aToB);
    TargetIsTick(b.tickIndex, aToB);
    IterationTrades(s, b, aToB);
    StepOnceSound(s, b, aToB);
    var next := StepOnce(s, b, aToB);
    RunOfOneStop(s, b, aToB, ticks);
    last := 0;
    if next.Ok? {
      last := next.value.sqrtPrice;
      assert Done(next.value, b, aToB) && StepToBoundary(s, b, aToB) == next;
    }
  }

  lemma RunOfOneStop(s: State, b: Boundary, aToB: bool, ticks: TickProvider)
    requires Positioned(s, aToB) && Honours(ticks, aToB) && Approaching(s, b, aToB)
    requires s.remaining > 0 && s.sqrtPrice != Limit(aToB) && ticks(s.tick, aToB) == Some(b)
    requires ticks(if aToB then b.tickIndex - 1 else b.tickIndex, aToB) == None
    ensures Run(s, aToB, ticks) == StepToBoundary(s, b, aToB)
  {
    hide OrcaPrice, StepToBoundary, R.WithinSpot, FeePositioned;
    StepToBoundarySound(s, b, aToB);
  }

  // ---- extra stops on a static-fee pool ----

  /** A quote over an explicit list of stops. */
  function ListQuote(pool: Pool, aToB: bool, amountIn: nat, stops: seq<Boundary>): Result<QuoteResult, Error>
    requires pool.Consistent() && amountIn <= U64MAX
  {
    ListProviderHonours(stops, aToB);
    QuoteExactIn(pool, aToB, amountIn, ListProvider(stops))
  }

  /** A static-fee pool that can be quoted. */
  ghost predicate Static(pool: Pool, amountIn: nat) {
    pool.Consistent() && amountIn <= U64MAX && pool.adaptiveFee.None? && pool.sqrtPrice.Some? && pool.liquidity.Some?
  }

  /** Where a quote starts. */
  function Start(pool: Pool, amountIn: nat): State
    requires Static(pool, amountIn)
  {
    NewState(pool, StaticFee(pool.feeRate), amountIn)
  }

  lemma ListQuoteIsListRun(pool: Pool, aToB: bool, amountIn: nat, stops: seq<Boundary>)
    requires Static(pool, amountIn) && Ordered(stops, aToB, pool.tickCurrentIndex)
    ensures Positioned(Start(pool, amountIn), aToB) && StaticAt(Start(pool, amountIn), pool.feeRate)
    ensures match ListRun(Start(pool, amountIn), stops, aToB)
            case Ok(end) =>
              end.remaining <= amountIn
              && ListQuote(pool, aToB, amountIn, stops) == Ok(QuoteResult(end.out, amountIn - end.remaining))
            case Err(e) => ListQuote(pool, aToB, amountIn, stops) == Err(e)
  {
    hide OrcaPrice, Run, ListRun, Ordered;
    ListProviderHonours(stops, aToB);
    assert [] + stops == stops;
    RunIsListRun(Start(pool, amountIn), [], stops, aToB);
    ListRunSound(Start(pool, amountIn), stops, aToB);
  }

  /** Adding uninitialized boundaries to the list keeps the quote succeeding and never raises its output. */
  ghost predicate ExtraStopsNeverPay(pool: Pool, aToB: bool, amountIn: nat, coarse: seq<Boundary>)
    requires pool.Consistent() && amountIn <= U64MAX && ListQuote(pool, aToB, amountIn, coarse).Ok?
  {
    forall fine: seq<Boundary> :: Adds(fine, coarse) && Ordered(fine, aToB, pool.tickCurrentIndex) ==>
                                    && ListQuote(pool, aToB, amountIn, fine).Ok?
                                    && ListQuote(pool, aToB, amountIn, fine).value.amountOut
                                       <= ListQuote(pool, aToB, amountIn, coarse).value.amountOut
  }

  /** Extra stops never pay more: on a static-fee pool, adding any uninitialized boundaries anywhere to the
      tick list never raises AmountOut, exactly when the quote ends without them at its limit or out of input,
      or would gain nothing from one more boundary at the end of the tick range. A quote that consumes its whole
      input is always safe. */
  lemma ExtraStopsNeverPayMore(pool: Pool, aToB: bool, amountIn: nat, coarse: seq<Boundary>)
    requires Static(pool, amountIn) && Ordered(coarse, aToB, pool.tickCurrentIndex)
    requires ListQuote(pool, aToB, amountIn, coarse).Ok?
    ensures Positioned(Start(pool, amountIn), aToB) && ListRun(Start(pool, amountIn), coarse, aToB).Ok?
    ensures var end := ListRun(Start(pool, amountIn), coarse, aToB).value;
            && (Finished(end, aToB) || Approaching(end, FarStop(aToB), aToB))
            && (ExtraStopsNeverPay(pool, aToB, amountIn, coarse)
                <==> Finished(end, aToB) || WalkGain(end, FarStop(aToB), aToB, pool.feeRate) == 0)
            && (ListQuote(pool, aToB, amountIn, coarse).value.amountInConsumed == amountIn ==>
                  ExtraStopsNeverPay(pool, aToB, amountIn, coarse))
  {
    hide OrcaPrice, Run, ListRun, ListQuote, Ordered, Adds, WalkGain;
    var s := Start(pool, amountIn);
    ListQuoteIsListRun(pool, aToB, amountIn, coarse);
    ExtraStopsIff(s, coarse, pool.feeRate, aToB);
    forall fine: seq<Boundary> | Ordered(fine, aToB, pool.tickCurrentIndex)
      ensures ListRun(s, fine, aToB).Ok? <==> ListQuote(pool, aToB, amountIn, fine).Ok?
      ensures ListRun(s, fine, aToB).Ok? ==>
                ListQuote(pool, aToB, amountIn, fine).value.amountOut == ListRun(s, fine, aToB).value.out
    {
      ListQuoteIsListRun(pool, aToB, amountIn, fine);
    }
  }

  /** A pool at the bottom of the tick range with one unit of liquidity and no fee. */
  const BOTTOM_POOL: Pool := Pool(Some(MIN_SQRT_PRICE), Some(1), MIN_TICK, 0, None, 0)

  /** Past the last stop an extra one can pay more: with no stop the quote is nothing, with one it is not. */
  lemma LaterStopCanPayMore()
    ensures Static(BOTTOM_POOL, 1) && Adds([FarStop(false)], []) && Ordered([FarStop(false)], false, MIN_TICK)
    ensures ListQuote(BOTTOM_POOL, false, 1, []) == Ok(QuoteResult(0, 0))
    ensures ListQuote(BOTTOM_POOL, false, 1, [FarStop(false)]).Ok?
    ensures ListQuote(BOTTOM_POOL, false, 1, [FarStop(false)]).value.amountOut > 0
  {
    hide OrcaPrice, StepToBoundary, ListQuote;
    var s := State(1, 0, MIN_SQRT_PRICE, 1, MIN_TICK, StaticFee(0));
    var edge := FarStop(false);
    OrcaPriceBounds();
    PriceOrder(MIN_TICK, MIN_TICK + 1);
    assert [edge][1..] == [];
    ListQuoteIsListRun(BOTTOM_POOL, false, 1, []);
    ListQuoteIsListRun(BOTTOM_POOL, false, 1, [edge]);
    AtBoundary(s, edge, false);
    assert Cost(s, edge, false) > 1 && R.NetInput(1, 0, true) == 1;
    var next := StaticStops(s, edge, false, 0);
    assert next == MIN_SQRT_PRICE + Q64;
    var gain := R.OutputDelta(MIN_SQRT_PRICE, next, 1, false);
    assert 0 < gain <= U64MAX;
    StepToBoundarySound(s, edge, false);
  }

  // ---- the program ----

  class FeeRateManager {
    const adaptive: bool
    const aToB: bool
    var tickGroupIndex: int
    const staticFeeRate: nat
    const constants: Constants
    var variables: Variables
    const coreLower: Option<GroupBound>
    const coreUpper: Option<GroupBound>

    ghost function Model(): Fee
      reads this
    {
      Fee(adaptive, aToB, tickGroupIndex, staticFeeRate, constants, variables, coreLower, coreUpper)
    }

    constructor (aToB': bool, tick: int, timestamp: nat, staticRate: nat, info: Option<Info>)
      requires info.Some? ==> info.value.constants.groupSize > 0
      requires NewFee(aToB', tick, timestamp, staticRate, info).Some?
      ensures NewFee(aToB', tick, timestamp, staticRate, info) == Some(Model())
    {
      hide OrcaPrice;
      if info.None? {
        adaptive, aToB, tickGroupIndex, staticFeeRate := false, false, 0, staticRate;
        constants, variables := Constants(0, 0, 0, 0, 0, 0), Variables(0, 0, 0, 0, 0);
        coreLower, coreUpper := None, None;
      } else {
        var c := info.value.constants;
        var group := FloorIndex(tick, c.groupSize);
        var v := info.value.variables.UpdateReference(group, timestamp, c).value;
        var maxDelta := MaxDelta(c, v);
        var lowerIndex, upperIndex := v.groupReference - maxDelta, v.groupReference + maxDelta;
        var lowerTick, upperTick := lowerIndex * c.groupSize, upperIndex * c.groupSize + c.groupSize;
        adaptive, aToB, tickGroupIndex, staticFeeRate := true, aToB', group, staticRate;
        constants, variables := c, v;
        coreLower := None;
        if lowerTick > MIN_TICK {
          var price := OrcaSqrtPriceFromTick(lowerTick);
          coreLower := Some(GroupBound(lowerIndex, price));
        }
        coreUpper := None;
        if upperTick < MAX_TICK {
          var price := OrcaSqrtPriceFromTick(upperTick);
          coreUpper := Some(GroupBound(upperIndex, price));
        }
      }
    }

    method UpdateVolatilityAccumulator()
      modifies this`variables
      ensures Model() == old(Model()).Charged()
    {
      if adaptive {
        variables := variables.UpdateAccumulator(tickGroupIndex, constants);
      }
    }

    method TotalFeeRate() returns (rate: nat)
      requires staticFeeRate < FEE_RATE_MUL
      ensures rate == Model().Rate()
    {
      if !adaptive {
        return staticFeeRate;
      }
      var total := staticFeeRate + AdaptiveFeeRate(constants, variables.accumulator);
      return if total > FEE_RATE_HARD_LIMIT then FEE_RATE_HARD_LIMIT else total;
    }

    method BoundedSqrtPriceTarget(target: nat, liquidity: nat) returns (bounded: nat, skip: bool)
      ensures (bounded, skip) == Model().BoundedTarget(target, liquidity)
    {
      hide OrcaPrice;
      if !adaptive {
        return target, false;
      }
      if constants.controlFactor == 0 || liquidity == 0 {
        return target, true;
      }
      if coreLower.Some? && tickGroupIndex < coreLower.value.index {
        return if aToB then target else R.Min(target, coreLower.value.sqrtPrice), true;
      }
      if coreUpper.Some? && tickGroupIndex > coreUpper.value.index {
        return if aToB then R.Max(target, coreUpper.value.sqrtPrice) else target, true;
      }
      var boundaryTick := tickGroupIndex * constants.groupSize;
      if !aToB {
        boundaryTick := boundaryTick + constants.groupSize;
      }
      var boundary := OrcaSqrtPriceFromTick(ClampTick(boundaryTick));
      return if aToB then R.Max(target, boundary) else R.Min(target, boundary), false;
    }

    method AdvanceTickGroup()
      modifies this`tickGroupIndex
      ensures Model() == old(Model()).AdvanceGroup()
    {
      if adaptive {
        tickGroupIndex := if aToB then tickGroupIndex - 1 else tickGroupIndex + 1;
      }
    }

    method AdvanceTickGroupAfterSkip(sqrtPrice: nat, nextTickSqrtPrice: nat, nextTickIndex: int)
      requires adaptive ==> constants.groupSize > 0 && MIN_SQRT_PRICE <= sqrtPrice
      modifies this
      ensures Model() == old(Model()).AdvanceAfterSkip(sqrtPrice, nextTickSqrtPrice, nextTickIndex)
    {
      hide OrcaPrice, OrcaTickAt;
      if !adaptive {
        return;
      }
      var tickIndex, onBoundary := nextTickIndex, TruncMod(nextTickIndex, constants.groupSize) == 0;
      if sqrtPrice != nextTickSqrtPrice {
        tickIndex := OrcaTickAt(sqrtPrice);
        var tickPrice := OrcaSqrtPriceFromTick(tickIndex);
        onBoundary := TruncMod(tickIndex, constants.groupSize) == 0 && sqrtPrice == tickPrice;
      }
      var lastTraversed := FloorIndex(tickIndex, constants.groupSize);
      if onBoundary && !aToB {
        lastTraversed := TruncDiv(tickIndex, constants.groupSize) - 1;
      }
      if (aToB && lastTraversed < tickGroupIndex) || (!aToB && lastTraversed > tickGroupIndex) {
        tickGroupIndex := lastTraversed;
        variables := variables.UpdateAccumulator(tickGroupIndex, constants);
      }
      tickGroupIndex := if aToB then tickGroupIndex - 1 else tickGroupIndex + 1;
    }
  }

  /** One inner iteration: a step, its booking, the crossing and the manager's advance. */
  method Iterate(mgr: FeeRateManager, amountRemaining: nat, amountOut: nat, sqrtPrice: nat,
                 liquidity: nat, currTick: int,
                 b: Boundary, nextTickSqrtPrice: nat, target: nat, aToB: bool)
    returns (err: Option<Error>, remaining: nat, out: nat, price: nat, active: nat, tick: int)
    requires Approaching(State(amountRemaining, amountOut, sqrtPrice, liquidity, currTick, mgr.Model()), b, aToB)
    requires nextTickSqrtPrice == OrcaPrice(b.tickIndex) && target == ClampTarget(nextTickSqrtPrice, Limit(aToB), aToB)
    modifies mgr
    ensures match StepOnce(State(amountRemaining, amountOut, sqrtPrice, liquidity, currTick, old(mgr.Model())), b, aToB)
            case Ok(n) => err.None? && State(remaining, out, price, active, tick, mgr.Model()) == n
            case Err(e) => err == Some(e)
  {
    hide OrcaPrice, ComputeSwapStep, Fee.BoundedTarget, Fee.GroupEdge, Fee.LastTraversed,
      Fee.Rate, OrcaTickAt, R.WithinSpot;
    ghost var s := State(amountRemaining, amountOut, sqrtPrice, liquidity, currTick, mgr.Model());
    TargetIsTick(b.tickIndex, aToB);
    BoundBetween(s, b, aToB);
    remaining, out, price, active, tick := amountRemaining, amountOut, sqrtPrice, liquidity, currTick;
    mgr.UpdateVolatilityAccumulator();
    var totalFeeRate := mgr.TotalFeeRate();
    var bounded, skip := mgr.BoundedSqrtPriceTarget(target, liquidity);
    var step := ComputeSwapStep(amountRemaining, totalFeeRate, liquidity, sqrtPrice, bounded, aToB);
    if step.Err? {
      err := Some(step.error);
      return;
    }
    StepSound(s, bounded, totalFeeRate, aToB);
    if step.value.amountIn > remaining || step.value.feeAmount > remaining - step.value.amountIn {
      err := Some(AmountOverflow);
      return;
    }
    remaining := remaining - (step.value.amountIn + step.value.feeAmount);
    if out + step.value.amountOut > U64MAX {
      err := Some(AmountOverflow);
      return;
    }
    out := out + step.value.amountOut;
    price := step.value.nextPrice;
    if price == nextTickSqrtPrice {
      if b.initialized {
        var net := CrossLiquidity(liquidity, b.liquidityNet, aToB);
        if net.Err? {
          err := Some(net.error);
          return;
        }
        active := net.value;
      }
      tick := if aToB then b.tickIndex - 1 else b.tickIndex;
    } else if price != sqrtPrice {
      tick := OrcaTickAt(price);
    }
    if skip {
      mgr.AdvanceTickGroupAfterSkip(price, nextTickSqrtPrice, b.tickIndex);
    } else {
      mgr.AdvanceTickGroup();
    }
    err := None;
  }

  /** The quote: the outer loop walks stop after stop, the inner one a tick group at a time. */
  method QuoteExactInDetailed(pool: Pool, aToB: bool, amountIn: nat, ticks: TickProvider)
    returns (quote: Result<QuoteResult, Error>)
    requires pool.Consistent() && Honours(ticks, aToB) && amountIn <= U64MAX
    ensures quote == QuoteExactIn(pool, aToB, amountIn, ticks)
  {
    hide OrcaPrice, StepOnce, Approaching, Positioned, StepToBoundary, GroupsLeft,
      TicksLeft, NewFee, FeePositioned, CoreBuilt,
      R.WithinSpot;
    if pool.sqrtPrice.None? || pool.liquidity.None? {
      return Err(InvalidPool);
    }
    NewFeeSound(pool, aToB);
    if NewFee(aToB, pool.tickCurrentIndex, pool.timestamp, pool.feeRate, pool.adaptiveFee).None? {
      return Err(InvalidPool);
    }
    var mgr := new FeeRateManager(aToB, pool.tickCurrentIndex, pool.timestamp, pool.feeRate, pool.adaptiveFee);
    var limit := if aToB then MIN_SQRT_PRICE else ORCA_MAX_SQRT_PRICE;
    var amountRemaining: nat, amountOut: nat := amountIn, 0;
    var sqrtPrice: nat, liquidity: nat, currTick := pool.sqrtPrice.value, pool.liquidity.value, pool.tickCurrentIndex;
    ghost var start := NewState(pool, mgr.Model(), amountIn);
    NewStatePositioned(pool, mgr.Model(), amountIn, aToB);
    RunSound(start, aToB, ticks);
    while amountRemaining > 0 && sqrtPrice != limit
      invariant amountRemaining <= amountIn
      invariant Positioned(State(amountRemaining, amountOut, sqrtPrice, liquidity, currTick, mgr.Model()), aToB)
      invariant Run(State(amountRemaining, amountOut, sqrtPrice, liquidity, currTick, mgr.Model()), aToB, ticks)
             == Run(start, aToB, ticks)
      decreases amountRemaining > 0,
                TicksLeft(State(amountRemaining, amountOut, sqrtPrice, liquidity, currTick, mgr.Model()), aToB)
    {
      var stop := ticks(currTick, aToB);
      if stop.None? {
        break;
      }
      var b := stop.value;
      ghost var s := State(amountRemaining, amountOut, sqrtPrice, liquidity, currTick, mgr.Model());
      AtBoundary(s, b, aToB);
      WalkMeasure(s, b, aToB);
      var err;
      err, amountRemaining, amountOut, sqrtPrice, liquidity, currTick :=
        WalkToBoundary(mgr, amountRemaining, amountOut, sqrtPrice, liquidity, currTick, b, aToB);
      if err.Some? {
        return Err(err.value);
      }
    }
    quote := Ok(QuoteResult(amountOut, amountIn - amountRemaining));
  }

  /** The inner loop. */
  method WalkToBoundary(mgr: FeeRateManager, amountRemaining: nat, amountOut: nat,
                        sqrtPrice: nat, liquidity: nat, currTick: int,
                        b: Boundary, aToB: bool)
    returns (err: Option<Error>, remaining: nat, out: nat, price: nat, active: nat, tick: int)
    requires Approaching(State(amountRemaining, amountOut, sqrtPrice, liquidity, currTick, mgr.Model()), b, aToB)
    modifies mgr
    ensures match StepToBoundary(State(amountRemaining, amountOut, sqrtPrice, liquidity, currTick, old(mgr.Model())),
                                 b, aToB)
            case Ok(n) => err.None? && State(remaining, out, price, active, tick, mgr.Model()) == n
            case Err(e) => err == Some(e)
  {
    hide OrcaPrice, Approaching, StepOnce, GroupsLeft;
    ghost var start := State(amountRemaining, amountOut, sqrtPrice, liquidity, currTick, mgr.Model());
    var nextTickSqrtPrice := OrcaSqrtPriceFromTick(b.tickIndex);
    var target := ClampTarget(nextTickSqrtPrice, Limit(aToB), aToB);
    remaining, out, price, active, tick := amountRemaining, amountOut, sqrtPrice, liquidity, currTick;
    while true
      invariant Approaching(State(remaining, out, price, active, tick, mgr.Model()), b, aToB)
      invariant StepToBoundary(State(remaining, out, price, active, tick, mgr.Model()), b, aToB)
             == StepToBoundary(start, b, aToB)
      decreases GroupsLeft(mgr.Model())
    {
      StepOnceSound(State(remaining, out, price, active, tick, mgr.Model()), b, aToB);
      err, remaining, out, price, active, tick :=
        Iterate(mgr, remaining, out, price, active, tick, b, nextTickSqrtPrice, target, aToB);
      if err.Some? {
        return;
      }
      if remaining == 0 || price == target {
        break;
      }
    }
  }

  lemma NewStatePositioned(pool: Pool, fee: Fee, amountIn: nat, aToB: bool)
    requires pool.Consistent() && pool.sqrtPrice.Some? && pool.liquidity.Some? && amountIn <= U64MAX
    requires FeePositioned(fee, pool.sqrtPrice.value) && fee.staticRate == pool.feeRate
             && (fee.adaptive ==> fee.aToB == aToB)
    ensures Positioned(NewState(pool, fee, amountIn), aToB)
  {
    hide OrcaPrice, FeePositioned;
  }

  /** A walk that leaves input over has moved the tick past the boundary. */
  lemma WalkMeasure(s: State, b: Boundary, aToB: bool)
    requires Positioned(s, aToB) && StopFrom(s.tick, b, aToB) && Approaching(s, b, aToB)
    ensures var walked := StepToBoundary(s, b, aToB);
            walked.Ok? ==>
              && Positioned(walked.value, aToB) && walked.value.remaining <= s.remaining
              && (walked.value.remaining == 0 || TicksLeft(walked.value, aToB) < TicksLeft(s, aToB))
  {
    hide OrcaPrice, StepToBoundary, R.WithinSpot, FeePositioned;
    StepToBoundarySound(s, b, aToB);
  }
}
