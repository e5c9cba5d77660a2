/** One exact-in Raydium swap as a run over its state: price, tick, liquidity, what is left of the
    input, and the dynamic fee. The functions are the specification of the methods in RaydiumQuote;
    that the two nested recursions terminate for every provider honouring its contract is proved here,
    as a measure on each. */
module RaydiumRun {
  import opened Rounding
  import opened Wrappers
  import opened MachineIntegers
  import opened TickTables
  import opened TickMath
  import opened RaydiumMath
  import opened RaydiumFee

  datatype Error = InvalidPool | SwapDisabled | AmountOverflow | NegativeLiquidity

  /** The next stop of a swap: a tick with liquidity, with resting limit orders, or with both. */
  datatype Boundary = Boundary(tickIndex: int, liquidityNet: Option<int>, initialized: bool, unfilled: nat)

  type TickProvider = (int, bool) -> Option<Boundary>

  datatype State = State(
    remaining: nat,
    out: nat,
    sqrtPrice: nat,
    liquidity: nat,
    tick: int,
    tickSpacing: nat,
    baseFeeRate: nat,
    spacingIdx: int,
    dyn: Option<DynamicFee>
  ) {
    function Charged(): State {
      if dyn.None? then this else this.(dyn := Some(dyn.value.UpdateAccumulator(spacingIdx)))
    }
  }

  /** A provider answers with a stop in the tick range, at or below fromTick when selling token_0 and
      above it otherwise. */
  ghost predicate Honours(ticks: TickProvider, zeroForOne: bool) {
    forall t: int :: ticks(t, zeroForOne).Some? ==> StopFrom(t, ticks(t, zeroForOne).value, zeroForOne)
  }

  predicate StopFrom(fromTick: int, b: Boundary, zeroForOne: bool) {
    && InRange(b.tickIndex)
    && (if zeroForOne then b.tickIndex <= fromTick else fromTick < b.tickIndex)
    && b.unfilled <= U64MAX
  }

  // ---- booking a fill ----

  function ToU64(v: int): Result<nat, Error> {
    if v < 0 || v > U64MAX then Err(AmountOverflow) else Ok(v)
  }

  /** One fill against the state; with the fee on the output it is already out of amountOut. */
  function Apply(s: State, amountIn: int, amountOut: int, fee: int, feeOnInput: bool): Result<State, Error> {
    var input :- ToU64(amountIn);
    var consumed :- if feeOnInput then
                      var feeAmount :- ToU64(fee);
                      ToU64(input + feeAmount)
                    else Ok(input);
    if consumed > s.remaining then Err(AmountOverflow)
    else
      var out :- ToU64(amountOut);
      if s.out + out > U64MAX then Err(AmountOverflow)
      else Ok(s.(remaining := s.remaining - consumed, out := s.out + out))
  }

  /** A limit-order match: the state after the fill and the order size still unfilled. */
  datatype Match = Match(s: State, unfilled: nat)

  /** What a match trades, before it is booked. `amountOut` is gross. */
  datatype Fill = Fill(amountIn: int, amountOut: nat, fee: nat)

  function OrderFill(remaining: nat, unfilled: nat, price: nat, feeRate: nat, zeroForOne: bool, feeOnInput: bool): Fill
    requires feeRate < FEE_DENOMINATOR
  {
    var inputFee := if feeOnInput then FeeOn(remaining, feeRate) else 0;
    var amountOut := LimitOrderOutput(remaining - inputFee, price, zeroForOne);
    if amountOut > unfilled then
      // The whole book is bought, for what its size costs.
      var amountIn := LimitOrderInput(unfilled, price, !zeroForOne);
      Fill(amountIn, unfilled, if feeOnInput then GrossUpFee(amountIn, feeRate) else 0)
    else Fill(remaining - inputFee, amountOut, inputFee)
  }

  /** A match against the orders of a tick, at that tick's own price. */
  function MatchLimitOrders(s: State, unfilled: nat, tickSqrtPrice: nat, feeRate: nat,
                            zeroForOne: bool, feeOnInput: bool): Result<Match, Error>
    requires feeRate < FEE_DENOMINATOR
  {
    if s.remaining == 0 || unfilled == 0 then Ok(Match(s, unfilled))
    else
      var fill := OrderFill(s.remaining, unfilled, PriceFromSqrtPrice(tickSqrtPrice, !zeroForOne),
                            feeRate, zeroForOne, feeOnInput);
      var filled :- ToU64(fill.amountOut);
      if filled > unfilled then Err(AmountOverflow)
      else
        var fee := if feeOnInput then fill.fee else FeeOn(fill.amountOut, feeRate);
        var paid := if feeOnInput then fill.amountOut else fill.amountOut - fee;
        var after :- Apply(s, fill.amountIn, paid, fee, feeOnInput);
        Ok(Match(after, unfilled - filled))
  }

  // ---- one inner step ----

  /** How far one step may go: to the target, or to the edge of the current tick-spacing group. */
  datatype Bound = Bound(skipped: bool, price: nat, tick: Option<int>)

  /** The tick at the far edge of the current tick-spacing group, kept in range. */
  function GroupEdge(s: State, zeroForOne: bool): (tick: int)
    ensures InRange(tick)
  {
    var edge := if zeroForOne then s.spacingIdx * s.tickSpacing else (s.spacingIdx + 1) * s.tickSpacing;
    if edge < MIN_TICK then MIN_TICK else if edge > MAX_TICK then MAX_TICK else edge
  }

  function SpacingBoundedPrice(s: State, target: nat, zeroForOne: bool): Bound {
    if s.dyn.None? || s.liquidity == 0 || s.dyn.value.accumulator == s.dyn.value.maxAccumulator
    then Bound(true, target, None)
    else
      var edge := GroupEdge(s, zeroForOne);
      var price := RaydiumPrice(edge);
      if zeroForOne && target > price then Bound(false, target, None)
      else if !zeroForOne && target < price then Bound(false, target, None)
      else Bound(false, price, Some(edge))
  }

  function ClampTarget(tickPrice: nat, limit: nat, zeroForOne: bool): nat {
    if zeroForOne then Max(tickPrice, limit) else Min(tickPrice, limit)
  }

  /** The state after the amounts of one step, and the price it ends at (not yet stored). */
  datatype Moved = Moved(s: State, next: nat)

  function MoveTo(s: State, bounded: nat, feeRate: nat, zeroForOne: bool, feeOnInput: bool): Result<Moved, Error>
    requires s.sqrtPrice > 0 && bounded > 0 && feeRate < FEE_DENOMINATOR
  {
    if s.sqrtPrice == bounded then Ok(Moved(s, bounded))
    else
      var step := ComputeSwapStep(s.sqrtPrice, bounded, s.liquidity, s.remaining, feeRate, zeroForOne, feeOnInput);
      var after :- Apply(s, step.amountIn, step.amountOut, step.fee, feeOnInput);
      Ok(Moved(after, step.next))
  }

  /** The loop variables of the walk to one boundary. */
  datatype Inner = Inner(s: State, unfilled: nat, liquidityNext: nat)

  function CrossLiquidity(liquidity: nat, net: Option<int>, zeroForOne: bool): Result<nat, Error> {
    if net.None? then Ok(liquidity)
    else
      var crossed := if zeroForOne then liquidity - net.value else liquidity + net.value;
      if crossed < 0 then Err(NegativeLiquidity) else Ok(crossed)
  }

  /** Where the pool stands after a boundary; orders left there keep it on the side it came from. */
  function TickAfterCross(tickIndex: int, hasLimitOrders: bool, zeroForOne: bool): int {
    if zeroForOne != hasLimitOrders then tickIndex - 1 else tickIndex
  }

  function LandedTick(next: nat, bound: Bound): int
    requires MIN_SQRT_PRICE <= next
  {
    if bound.tick.Some? && next == bound.price then bound.tick.value else RaydiumTickAt(next)
  }

  /** Where the step's price leaves the pool: on the boundary, short of it, or unmoved. */
  function Settle(i: Inner, moved: Moved, b: Boundary, bound: Bound, feeRate: nat,
                  zeroForOne: bool, feeOnInput: bool): Result<Inner, Error>
    requires MIN_SQRT_PRICE <= moved.next && feeRate < FEE_DENOMINATOR
  {
    var tickPrice := RaydiumPrice(b.tickIndex);
    if tickPrice == moved.next then
      var matched :- MatchLimitOrders(moved.s, i.unfilled, tickPrice, feeRate, zeroForOne, feeOnInput);
      var crossed :- if b.initialized && matched.unfilled == 0
                     then CrossLiquidity(i.liquidityNext, b.liquidityNet, zeroForOne)
                     else Ok(i.liquidityNext);
      Ok(Inner(matched.s.(tick := TickAfterCross(b.tickIndex, matched.unfilled > 0, zeroForOne)),
               matched.unfilled, crossed))
    else if moved.s.sqrtPrice != moved.next then
      Ok(Inner(moved.s.(tick := LandedTick(moved.next, bound)), i.unfilled, i.liquidityNext))
    else Ok(Inner(moved.s, i.unfilled, i.liquidityNext))
  }

  /** The group index after a step: one further, from where a skip has led. */
  function AdvanceIndex(s: State, zeroForOne: bool, skipped: bool, tickPrice: nat, tickNext: int): State
    requires s.dyn.Some? ==> s.tickSpacing > 0
  {
    if s.dyn.None? then s
    else
      var realigned :=
        if !skipped then s
        else
          var landed := if s.sqrtPrice == tickPrice then tickNext else s.tick;
          var index := FloorIndex(landed, s.tickSpacing);
          var moved :=
            s.(spacingIdx := if !zeroForOne && TruncMod(landed, s.tickSpacing) == 0 then index - 1 else index);
          if moved.dyn.value.accumulator != moved.dyn.value.maxAccumulator then moved.Charged() else moved;
      realigned.(spacingIdx := if zeroForOne then realigned.spacingIdx - 1 else realigned.spacingIdx + 1)
  }

  /** The state a step acts on, the rate it charges and how far it may go. */
  function StepRate(i: Inner): (rate: nat)
    requires i.s.baseFeeRate < FEE_DENOMINATOR
    ensures rate < FEE_DENOMINATOR
  {
    TotalFeeRate(i.s.Charged().dyn, i.s.tickSpacing, i.s.baseFeeRate)
  }

  function StepBound(i: Inner, target: nat, zeroForOne: bool): Bound {
    SpacingBoundedPrice(i.s.Charged(), target, zeroForOne)
  }

  // ---- where a run stands ----

  function Limit(zeroForOne: bool): nat {
    if zeroForOne then MIN_SQRT_PRICE else RAYDIUM_MAX_SQRT_PRICE
  }

  /** The price lies between the current tick and the next, within the limits, and the current
      tick-spacing group does not end behind it. */
  ghost predicate Positioned(s: State, zeroForOne: bool) {
    && MIN_TICK - 1 <= s.tick <= MAX_TICK
    && RaydiumPrice(s.tick) <= s.sqrtPrice <= RaydiumPrice(s.tick + 1)
    && MIN_SQRT_PRICE <= s.sqrtPrice <= RAYDIUM_MAX_SQRT_PRICE
    && s.remaining <= U64MAX && s.out <= U64MAX
    && s.baseFeeRate < FEE_DENOMINATOR
    && (s.dyn.Some? ==> s.tickSpacing > 0 && Ahead(s.sqrtPrice, RaydiumPrice(GroupEdge(s, zeroForOne)), zeroForOne))
  }

  /** A position with the boundary still ahead of it. */
  ghost predicate Approaching(i: Inner, b: Boundary, zeroForOne: bool) {
    && Positioned(i.s, zeroForOne)
    && InRange(b.tickIndex)
    && Ahead(i.s.sqrtPrice, RaydiumPrice(b.tickIndex), zeroForOne)
    && i.unfilled <= U64MAX
  }

  lemma PriceOrder(t: int, u: int)
    requires InSpan(t) && InSpan(u) && t <= u
    ensures RaydiumPrice(t) <= RaydiumPrice(u)
  {
    hide RaydiumPrice;
    if t < u {
      RaydiumPriceIncreasing(t, u);
    }
  }

  /** A stop in the tick range prices within the limits, so clamping the target never binds. */
  lemma TargetIsTick(tick: int, zeroForOne: bool)
    requires InRange(tick)
    ensures MIN_SQRT_PRICE <= RaydiumPrice(tick) <= RAYDIUM_MAX_SQRT_PRICE
    ensures ClampTarget(RaydiumPrice(tick), Limit(zeroForOne), zeroForOne) == RaydiumPrice(tick)
  {
    hide RaydiumPrice;
    RaydiumPriceBounds();
    PriceOrder(MIN_TICK, tick);
    PriceOrder(tick, MAX_TICK);
  }

  /** A step's bound lies between the price and the boundary. */
  lemma BoundBetween(i: Inner, b: Boundary, zeroForOne: bool)
    requires Approaching(i, b, zeroForOne)
    ensures var target := RaydiumPrice(b.tickIndex);
            var bound := StepBound(i, target, zeroForOne);
            && Ahead(i.s.sqrtPrice, bound.price, zeroForOne) && Ahead(bound.price, target, zeroForOne)
            && MIN_SQRT_PRICE <= bound.price <= RAYDIUM_MAX_SQRT_PRICE
            && (bound.tick.None? ==> bound.price == target)
            && (bound.tick.Some? ==> && bound.tick.value == GroupEdge(i.s, zeroForOne)
                                     && bound.price == RaydiumPrice(bound.tick.value)
                                     && i.s.dyn.Some? && !bound.skipped)
  {
    hide RaydiumPrice;
    TargetIsTick(b.tickIndex, zeroForOne);
    TargetIsTick(GroupEdge(i.s, zeroForOne), zeroForOne);
  }

  /** What booking a fill changes. */
  predicate Booked(s: State, after: State, spent: int, paid: int) {
    && 0 <= spent <= s.remaining && 0 <= paid && s.out + paid <= U64MAX
    && after == s.(remaining := s.remaining - spent, out := s.out + paid)
  }

  /** A step never overdraws the input: it can fail only because the output leaves a u64. */
  lemma MoveSound(s: State, bounded: nat, feeRate: nat, zeroForOne: bool, feeOnInput: bool)
    requires s.sqrtPrice > 0 && bounded > 0 && feeRate < FEE_DENOMINATOR
    requires s.remaining <= U64MAX && s.out <= U64MAX && Ahead(s.sqrtPrice, bounded, zeroForOne)
    ensures var moved := MoveTo(s, bounded, feeRate, zeroForOne, feeOnInput);
            match moved
            case Ok(m) =>
              && Booked(s, m.s, s.remaining - m.s.remaining, m.s.out - s.out)
              && Ahead(s.sqrtPrice, m.next, zeroForOne) && Ahead(m.next, bounded, zeroForOne) && m.next > 0
              && (m.next != bounded ==> m.s.remaining == 0)
              && WithinSpot(m.s.out - s.out, s.remaining - m.s.remaining, s.sqrtPrice, zeroForOne)
            case Err(e) =>
              && e == AmountOverflow && s.sqrtPrice != bounded
              && s.out + ComputeSwapStep(s.sqrtPrice, bounded, s.liquidity, s.remaining,
                                         feeRate, zeroForOne, feeOnInput).amountOut > U64MAX
  {
    hide ComputeSwapStep, InputDelta, OutputDelta, WithinSpot;
    if s.sqrtPrice == bounded {
      SpotOfNothing(s.sqrtPrice, zeroForOne);
    } else {
      StepSound(s.sqrtPrice, bounded, s.liquidity, s.remaining, feeRate, zeroForOne, feeOnInput);
      var step := ComputeSwapStep(s.sqrtPrice, bounded, s.liquidity, s.remaining, feeRate, zeroForOne, feeOnInput);
      CurveWithinSpot(s.sqrtPrice, step.next, s.liquidity, zeroForOne, step.amountOut, step.Consumed(feeOnInput));
    }
  }

  /** A fill off a non-empty book draws no more than the remaining input, pays at least nothing, and
      leaves either the book empty or the input exhausted. */
  lemma FillSound(remaining: nat, unfilled: nat, sqrtPrice: nat, feeRate: nat, zeroForOne: bool, feeOnInput: bool)
    requires feeRate < FEE_DENOMINATOR && sqrtPrice * sqrtPrice >= Q64
    ensures var price := PriceFromSqrtPrice(sqrtPrice, !zeroForOne);
            var fill := OrderFill(remaining, unfilled, price, feeRate, zeroForOne, feeOnInput);
            var spent := fill.amountIn + fill.fee;
            && 0 <= fill.amountIn && fill.amountOut <= unfilled && spent <= remaining
            && (fill.amountOut < unfilled ==> spent == remaining)
            && (!feeOnInput ==> fill.fee == 0)
            && WithinSpot(fill.amountOut, spent, sqrtPrice, zeroForOne)
  {
    hide LimitOrderOutput, LimitOrderInput, PriceFromSqrtPrice, WithinSpot;
    OrderPrice(sqrtPrice, zeroForOne);
    var price := PriceFromSqrtPrice(sqrtPrice, !zeroForOne);
    FeeOffGross(remaining, feeRate, FEE_DENOMINATOR);
    var net: nat := remaining - (if feeOnInput then FeeOn(remaining, feeRate) else 0);
    OrderAdjoint(unfilled, net, price, zeroForOne);
    OrderAdjoint(LimitOrderOutput(net, price, zeroForOne), net, price, zeroForOne);
    FeeAdjoint(LimitOrderInput(unfilled, price, !zeroForOne), remaining, feeRate, FEE_DENOMINATOR);
    var fill := OrderFill(remaining, unfilled, price, feeRate, zeroForOne, feeOnInput);
    OrderWithinSpot(fill.amountOut, fill.amountIn + fill.fee, sqrtPrice, zeroForOne);
  }

  /** A fill is the greatest the book and the input allow: it gives `out` exactly when the book holds it and
      the input after its fee covers the order's rounded-up price of it. When the book runs out it draws that
      price with its own fee, otherwise everything. */
  lemma FillIsGreatest(remaining: nat, unfilled: nat, sqrtPrice: nat, feeRate: nat,
                       zeroForOne: bool, feeOnInput: bool, out: nat)
    requires feeRate < FEE_DENOMINATOR && sqrtPrice * sqrtPrice >= Q64
    ensures var price := PriceFromSqrtPrice(sqrtPrice, !zeroForOne);
            var fill := OrderFill(remaining, unfilled, price, feeRate, zeroForOne, feeOnInput);
            var net := NetInput(remaining, feeRate, feeOnInput);
            && (out <= fill.amountOut <==> out <= unfilled && LimitOrderInput(out, price, !zeroForOne) <= net)
            && if LimitOrderOutput(net, price, zeroForOne) > unfilled
               then fill.amountIn == LimitOrderInput(unfilled, price, !zeroForOne)
                    && fill.fee == (if feeOnInput then GrossUpFee(fill.amountIn, feeRate) else 0)
               else fill.amountIn + fill.fee == remaining
  {
    hide LimitOrderOutput, LimitOrderInput, PriceFromSqrtPrice;
    OrderPrice(sqrtPrice, zeroForOne);
    FeeOffGross(remaining, feeRate, FEE_DENOMINATOR);
    OrderAdjoint(out, NetInput(remaining, feeRate, feeOnInput), PriceFromSqrtPrice(sqrtPrice, !zeroForOne), zeroForOne);
  }

  lemma MatchSound(s: State, unfilled: nat, sqrtPrice: nat, feeRate: nat, zeroForOne: bool, feeOnInput: bool)
    requires feeRate < FEE_DENOMINATOR && sqrtPrice * sqrtPrice >= Q64
    requires s.remaining <= U64MAX && s.out <= U64MAX && unfilled <= U64MAX
    ensures var matched := MatchLimitOrders(s, unfilled, sqrtPrice, feeRate, zeroForOne, feeOnInput);
            match matched
            case Ok(m) =>
              && Booked(s, m.s, s.remaining - m.s.remaining, m.s.out - s.out)
              && m.unfilled <= unfilled
              && (m.unfilled == 0 || m.s.remaining == 0)
              && m.s.out - s.out <= unfilled - m.unfilled
              && WithinSpot(m.s.out - s.out, s.remaining - m.s.remaining, sqrtPrice, zeroForOne)
            case Err(e) => e == AmountOverflow && s.out + unfilled > U64MAX
  {
    hide OrderFill, WithinSpot, FeeOn, PriceFromSqrtPrice;
    if s.remaining == 0 || unfilled == 0 {
      SpotOfNothing(sqrtPrice, zeroForOne);
    } else {
      FillSound(s.remaining, unfilled, sqrtPrice, feeRate, zeroForOne, feeOnInput);
      var fill := OrderFill(s.remaining, unfilled, PriceFromSqrtPrice(sqrtPrice, !zeroForOne),
                            feeRate, zeroForOne, feeOnInput);
      var paid := NetOutput(fill.amountOut, feeRate, feeOnInput);
      SpotOfLess(paid, fill.amountOut, fill.amountIn + fill.fee, sqrtPrice, zeroForOne);
    }
  }

  lemma SpotOfLess(paid: nat, gross: nat, spent: nat, p: nat, zeroForOne: bool)
    requires paid <= gross && WithinSpot(gross, spent, p, zeroForOne)
    ensures WithinSpot(paid, spent, p, zeroForOne)
  {
    MulMono(paid, gross, Q64 * Q64);
    MulMono(paid, gross, p * p);
  }

  /** What a step along the curve books is exactly what a step trades. */
  lemma MoveTrades(s: State, bounded: nat, feeRate: nat, zeroForOne: bool, feeOnInput: bool)
    requires s.sqrtPrice > 0 && bounded > 0 && feeRate < FEE_DENOMINATOR
    requires s.remaining <= U64MAX && s.out <= U64MAX && Ahead(s.sqrtPrice, bounded, zeroForOne)
    ensures var moved := MoveTo(s, bounded, feeRate, zeroForOne, feeOnInput);
            moved.Ok? ==>
              var m := moved.value;
              TradesTo(m.next, s.remaining - m.s.remaining, m.s.out - s.out, s.sqrtPrice,
                       bounded, s.liquidity, s.remaining,
                       if feeOnInput then feeRate else 0, if feeOnInput then 0 else feeRate, zeroForOne)
  {
    hide ComputeSwapStep, InputDelta, OutputDelta, TradesTo;
    if s.sqrtPrice == bounded {
      NoMove(s.sqrtPrice, s.liquidity, s.remaining, feeRate, zeroForOne, feeOnInput);
    } else {
      StepSound(s.sqrtPrice, bounded, s.liquidity, s.remaining, feeRate, zeroForOne, feeOnInput);
      StepTrades(s.sqrtPrice, bounded, s.liquidity, s.remaining, feeRate, zeroForOne, feeOnInput);
    }
  }

  /** Where nothing has to move, nothing is traded. */
  lemma NoMove(price: nat, liquidity: nat, remaining: nat, feeRate: nat, zeroForOne: bool, feeOnInput: bool)
    requires price > 0 && feeRate < FEE_DENOMINATOR
    ensures TradesTo(price, 0, 0, price, price, liquidity, remaining,
                     if feeOnInput then feeRate else 0, if feeOnInput then 0 else feeRate, zeroForOne)
  {
    var feeIn, feeOut := if feeOnInput then feeRate else 0, if feeOnInput then 0 else feeRate;
    var net := NetInput(remaining, feeRate, feeOnInput);
    FeeShares(remaining, feeRate, feeOnInput);
    Positive(price, price);
    hide NetInput;
    assert IsOutput(0, price, price, liquidity, zeroForOne);
    assert IsInput(0, price, price, liquidity, zeroForOne);
    assert IsShare(0, 0, 1_000_000 - feeOut, 1_000_000);
    hide IsShare, IsOutput, IsInput;
    assert IsStep(price, 0, 0, net, 0, 0, price, price, liquidity, remaining, feeIn, feeOut, zeroForOne);
  }

  lemma FillParts(remaining: nat, unfilled: nat, price: nat, feeRate: nat, zeroForOne: bool, feeOnInput: bool)
    requires feeRate < FEE_DENOMINATOR
    ensures var fill := OrderFill(remaining, unfilled, price, feeRate, zeroForOne, feeOnInput);
            var bought := LimitOrderOutput(NetInput(remaining, feeRate, feeOnInput), price, zeroForOne);
            var drawn := LimitOrderInput(unfilled, price, !zeroForOne);
            if bought > unfilled
            then fill.amountOut == unfilled
                 && fill.amountIn + fill.fee == drawn + if feeOnInput then GrossUpFee(drawn, feeRate) else 0
            else fill.amountOut == bought && fill.amountIn + fill.fee == remaining
  {
    hide LimitOrderOutput, LimitOrderInput;
    FeeOffGross(remaining, feeRate, FEE_DENOMINATOR);
  }

  /** A fill off a book is exactly a match. */
  lemma FillTrades(remaining: nat, unfilled: nat, sqrtPrice: nat, feeRate: nat, zeroForOne: bool, feeOnInput: bool)
    requires feeRate < FEE_DENOMINATOR && sqrtPrice * sqrtPrice >= Q64 && remaining > 0 && unfilled > 0
    ensures var fill := OrderFill(remaining, unfilled, PriceFromSqrtPrice(sqrtPrice, !zeroForOne), feeRate,
                                  zeroForOne, feeOnInput);
            Matches(fill.amountIn + fill.fee, NetOutput(fill.amountOut, feeRate, feeOnInput), fill.amountOut, remaining,
                    unfilled, sqrtPrice, if feeOnInput then feeRate else 0, if feeOnInput then 0
                    else feeRate, zeroForOne)
  {
    hide OrderFill, LimitOrderOutput, LimitOrderInput, PriceFromSqrtPrice, NetInput, NetOutput, GrossUpFee, IsShare,
      IsLeastGross, BuysOrder, IsOrderPrice, IsOrderInput;
    var price := PriceFromSqrtPrice(sqrtPrice, !zeroForOne);
    var fill := OrderFill(remaining, unfilled, price, feeRate, zeroForOne, feeOnInput);
    var net, drawn := NetInput(remaining, feeRate, feeOnInput), LimitOrderInput(unfilled, price, !zeroForOne);
    var feeIn, feeOut := if feeOnInput then feeRate else 0, if feeOnInput then 0 else feeRate;
    OrderPrice(sqrtPrice, zeroForOne);
    OrderPriceIs(sqrtPrice, zeroForOne);
    OrderInputIs(unfilled, price, zeroForOne);
    FillParts(remaining, unfilled, price, feeRate, zeroForOne, feeOnInput);
    FeeShares(remaining, feeRate, feeOnInput);
    FeeShares(fill.amountOut, feeRate, feeOnInput);
    FeeShares(drawn, feeRate, feeOnInput);
    Untaxed(drawn);
    OrderAdjoint(unfilled + 1, net, price, zeroForOne);
    OrderCovers(net, unfilled + 1, price, zeroForOne);
    FillReaches(net, fill.amountOut, unfilled, price, zeroForOne);
    assert IsMatch(fill.amountIn + fill.fee, NetOutput(fill.amountOut, feeRate, feeOnInput), fill.amountOut, net, drawn,
                   price, remaining, unfilled, sqrtPrice, feeIn, feeOut, zeroForOne);
  }

  lemma FillReaches(net: nat, out: nat, unfilled: nat, price: nat, zeroForOne: bool)
    requires price > 0
    requires out == (if LimitOrderOutput(net, price, zeroForOne) > unfilled then unfilled
                     else LimitOrderOutput(net, price, zeroForOne))
    ensures BuysOrder(net, out, price, zeroForOne)
    ensures BuysOrder(net, out + 1, price, zeroForOne) ==> BuysOrder(net, unfilled + 1, price, zeroForOne)
  {
    hide LimitOrderOutput, LimitOrderInput, BuysOrder;
    OrderAdjoint(out, net, price, zeroForOne);
    OrderCovers(net, out, price, zeroForOne);
    OrderAdjoint(out + 1, net, price, zeroForOne);
    OrderCovers(net, out + 1, price, zeroForOne);
  }

  /** What a match books is exactly what it trades. */
  lemma MatchTrades(s: State, unfilled: nat, sqrtPrice: nat, feeRate: nat, zeroForOne: bool, feeOnInput: bool)
    requires feeRate < FEE_DENOMINATOR && sqrtPrice * sqrtPrice >= Q64
    requires s.remaining <= U64MAX && s.out <= U64MAX && unfilled <= U64MAX
    ensures var matched := MatchLimitOrders(s, unfilled, sqrtPrice, feeRate, zeroForOne, feeOnInput);
            matched.Ok? ==>
              var m := matched.value;
              Matches(s.remaining - m.s.remaining, m.s.out - s.out, unfilled - m.unfilled,
                      s.remaining, unfilled, sqrtPrice,
                      if feeOnInput then feeRate else 0, if feeOnInput then 0 else feeRate, zeroForOne)
  {
    hide OrderFill, FeeOn, PriceFromSqrtPrice, IsMatch;
    if s.remaining > 0 && unfilled > 0 {
      FillSound(s.remaining, unfilled, sqrtPrice, feeRate, zeroForOne, feeOnInput);
      FillTrades(s.remaining, unfilled, sqrtPrice, feeRate, zeroForOne, feeOnInput);
    }
  }

  // ---- keeping the position ----

  /** The price sits between a tick and the next one, both in reach of the tables. */
  ghost predicate Bracketed(tick: int, price: nat) {
    && MIN_TICK - 1 <= tick <= MAX_TICK
    && RaydiumPrice(tick) <= price <= RaydiumPrice(tick + 1)
    && MIN_SQRT_PRICE <= price <= RAYDIUM_MAX_SQRT_PRICE
  }

  lemma CrossedBracket(tick: int, hasLimitOrders: bool, zeroForOne: bool)
    requires InRange(tick)
    ensures Bracketed(TickAfterCross(tick, hasLimitOrders, zeroForOne), RaydiumPrice(tick))
  {
    hide RaydiumPrice;
    TargetIsTick(tick, zeroForOne);
    PriceOrder(tick - 1, tick);
    PriceOrder(tick, tick + 1);
  }

  lemma LandedBracket(next: nat, bound: Bound)
    requires MIN_SQRT_PRICE <= next <= RAYDIUM_MAX_SQRT_PRICE
    requires bound.tick.Some? ==> InRange(bound.tick.value) && bound.price == RaydiumPrice(bound.tick.value)
    ensures Bracketed(LandedTick(next, bound), next)
  {
    hide RaydiumPrice;
    var tick := LandedTick(next, bound);
    RaydiumPriceBounds();
    PriceOrder(tick, tick + 1);
    PriceOrder(MAX_TICK, MAX_TICK + 1);
  }

  /** The group edge is ahead of the price once some tick between them is. */
  lemma EdgeAhead(s: State, t: int, zeroForOne: bool)
    requires InSpan(t) && MIN_SQRT_PRICE <= s.sqrtPrice <= RAYDIUM_MAX_SQRT_PRICE
    requires if zeroForOne then s.spacingIdx * s.tickSpacing <= t && RaydiumPrice(t) <= s.sqrtPrice
             else t <= (s.spacingIdx + 1) * s.tickSpacing && s.sqrtPrice <= RaydiumPrice(t)
    ensures Ahead(s.sqrtPrice, RaydiumPrice(GroupEdge(s, zeroForOne)), zeroForOne)
  {
    hide RaydiumPrice;
    RaydiumPriceBounds();
    var edge := GroupEdge(s, zeroForOne);
    if zeroForOne && edge <= t {
      PriceOrder(edge, t);
    } else if !zeroForOne && t <= edge {
      PriceOrder(t, edge);
    }
  }

  /** The next group over ends further along. */
  lemma EdgeMoves(s: State, zeroForOne: bool)
    ensures var over := s.(spacingIdx := if zeroForOne then s.spacingIdx - 1 else s.spacingIdx + 1);
            if zeroForOne then GroupEdge(over, true) <= GroupEdge(s, true)
            else GroupEdge(s, false) <= GroupEdge(over, false)
  {
    Distribute(s.tickSpacing, s.spacingIdx, 1);
    Distribute(s.tickSpacing, s.spacingIdx + 1, 1);
  }

  /** Realigning after a skip leaves the group's end ahead of the price. */
  lemma RealignedEdge(s: State, landed: int, zeroForOne: bool)
    requires s.tickSpacing > 0 && MIN_TICK - 1 <= landed <= MAX_TICK
    requires RaydiumPrice(landed) <= s.sqrtPrice <= RaydiumPrice(landed + 1)
    requires MIN_SQRT_PRICE <= s.sqrtPrice <= RAYDIUM_MAX_SQRT_PRICE
    ensures var index := FloorIndex(landed, s.tickSpacing);
            var after := if zeroForOne then index - 1
                         else if TruncMod(landed, s.tickSpacing) == 0 then index else index + 1;
            Ahead(s.sqrtPrice, RaydiumPrice(GroupEdge(s.(spacingIdx := after), zeroForOne)), zeroForOne)
  {
    hide RaydiumPrice;
    var index := FloorIndex(landed, s.tickSpacing);
    Distribute(s.tickSpacing, index, 1);
    Distribute(s.tickSpacing, index + 1, 1);
    if zeroForOne {
      EdgeAhead(s.(spacingIdx := index - 1), landed, true);
    } else {
      EdgeAhead(s.(spacingIdx := if TruncMod(landed, s.tickSpacing) == 0 then index else index + 1), landed + 1, false);
    }
  }

  /** Advancing the tick-spacing index changes nothing else a position depends on, and leaves the
      group's end ahead of the price. */
  lemma AdvanceSound(s: State, zeroForOne: bool, skipped: bool, tickPrice: nat, tickNext: int)
    requires Bracketed(s.tick, s.sqrtPrice) && InRange(tickNext) && tickPrice == RaydiumPrice(tickNext)
    requires s.dyn.Some? ==> s.tickSpacing > 0
    requires s.dyn.Some? && !skipped ==> Ahead(s.sqrtPrice, RaydiumPrice(GroupEdge(s, zeroForOne)), zeroForOne)
    ensures var after := AdvanceIndex(s, zeroForOne, skipped, tickPrice, tickNext);
            && after == s.(spacingIdx := after.spacingIdx, dyn := after.dyn)
            && (after.dyn.Some? <==> s.dyn.Some?)
            && (s.dyn.Some? ==> Ahead(s.sqrtPrice, RaydiumPrice(GroupEdge(after, zeroForOne)), zeroForOne))
            && (!skipped && s.dyn.Some? ==>
                  after.spacingIdx == if zeroForOne then s.spacingIdx - 1 else s.spacingIdx + 1)
  {
    hide RaydiumPrice;
    if s.dyn.Some? {
      var after := AdvanceIndex(s, zeroForOne, skipped, tickPrice, tickNext);
      if skipped {
        var landed := if s.sqrtPrice == tickPrice then tickNext else s.tick;
        PriceOrder(tickNext, tickNext + 1);
        RealignedEdge(s, landed, zeroForOne);
        assert GroupEdge(after, zeroForOne) == GroupEdge(s.(spacingIdx := after.spacingIdx), zeroForOne);
      } else {
        EdgeMoves(s, zeroForOne);
        assert GroupEdge(after, zeroForOne) == GroupEdge(s.(spacingIdx := after.spacingIdx), zeroForOne);
        if zeroForOne {
          PriceOrder(GroupEdge(after, true), GroupEdge(s, true));
        } else {
          PriceOrder(GroupEdge(s, false), GroupEdge(after, false));
        }
      }
    }
  }

  /** Settling books at most a match at the boundary's own price and leaves the tick bracketing the
      new price; a boundary not reached is neither matched nor crossed. */
  lemma SettleSound(i: Inner, moved: Moved, b: Boundary, bound: Bound, feeRate: nat, zeroForOne: bool, feeOnInput: bool)
    requires InRange(b.tickIndex) && feeRate < FEE_DENOMINATOR && i.unfilled <= U64MAX
    requires Bracketed(moved.s.tick, moved.s.sqrtPrice)
    requires MIN_SQRT_PRICE <= moved.next <= RAYDIUM_MAX_SQRT_PRICE
    requires moved.s.remaining <= U64MAX && moved.s.out <= U64MAX
    requires bound.tick.Some? ==> InRange(bound.tick.value) && bound.price == RaydiumPrice(bound.tick.value)
    ensures var settled := Settle(i, moved, b, bound, feeRate, zeroForOne, feeOnInput);
            var tickPrice := RaydiumPrice(b.tickIndex);
            settled.Ok? ==>
              var n := settled.value;
              && Booked(moved.s, n.s.(tick := moved.s.tick), moved.s.remaining - n.s.remaining, n.s.out - moved.s.out)
              && Bracketed(n.s.tick, moved.next)
              && n.unfilled <= i.unfilled
              && (tickPrice != moved.next ==> n == Inner(moved.s.(tick := n.s.tick), i.unfilled, i.liquidityNext))
              && (tickPrice == moved.next ==>
                    && (n.unfilled == 0 || n.s.remaining == 0)
                    && n.s.tick == TickAfterCross(b.tickIndex, n.unfilled > 0, zeroForOne)
                    && WithinSpot(n.s.out - moved.s.out, moved.s.remaining - n.s.remaining, tickPrice, zeroForOne))
  {
    hide RaydiumPrice, MatchLimitOrders, WithinSpot;
    TargetIsTick(b.tickIndex, zeroForOne);
    if RaydiumPrice(b.tickIndex) == moved.next {
      SquareMono(MIN_SQRT_PRICE, moved.next);
      MatchSound(moved.s, i.unfilled, moved.next, feeRate, zeroForOne, feeOnInput);
      CrossedBracket(b.tickIndex, true, zeroForOne);
      CrossedBracket(b.tickIndex, false, zeroForOne);
    } else if moved.s.sqrtPrice != moved.next {
      LandedBracket(moved.next, bound);
    }
  }

  // ---- the two loops ----

  /** One iteration of the walk to a boundary. */
  function StepOnce(i: Inner, b: Boundary, zeroForOne: bool, feeOnInput: bool): Result<Inner, Error>
    requires Approaching(i, b, zeroForOne)
  {
    hide RaydiumPrice, MoveTo, Settle, StepBound;
    var tickPrice := RaydiumPrice(b.tickIndex);
    TargetIsTick(b.tickIndex, zeroForOne);
    var bound := StepBound(i, ClampTarget(tickPrice, Limit(zeroForOne), zeroForOne), zeroForOne);
    BoundBetween(i, b, zeroForOne);
    var moved :- MoveTo(i.s.Charged(), bound.price, StepRate(i), zeroForOne, feeOnInput);
    MoveSound(i.s.Charged(), bound.price, StepRate(i), zeroForOne, feeOnInput);
    var settled :- Settle(i, moved, b, bound, StepRate(i), zeroForOne, feeOnInput);
    SettleKeepsShape(i, moved, b, bound, StepRate(i), zeroForOne, feeOnInput);
    var landed := settled.s.(sqrtPrice := moved.next);
    Ok(settled.(s := AdvanceIndex(landed, zeroForOne, bound.skipped, tickPrice, b.tickIndex)))
  }

  lemma SettleKeepsShape(i: Inner, moved: Moved, b: Boundary, bound: Bound, feeRate: nat,
                         zeroForOne: bool, feeOnInput: bool)
    requires MIN_SQRT_PRICE <= moved.next && feeRate < FEE_DENOMINATOR
    ensures var settled := Settle(i, moved, b, bound, feeRate, zeroForOne, feeOnInput);
            settled.Ok? ==>
              var n := settled.value.s;
              n == moved.s.(remaining := n.remaining, out := n.out, tick := n.tick)
  {
    hide RaydiumPrice, OrderFill, LandedTick;
  }

  /** The boundary is reached, or there is no input left. */
  predicate Done(i: Inner, b: Boundary, zeroForOne: bool) {
    i.s.remaining == 0 || i.s.sqrtPrice == ClampTarget(RaydiumPrice(b.tickIndex), Limit(zeroForOne), zeroForOne)
  }

  /** Tick-spacing groups left before the tick range ends: the inner loop's measure. */
  function GroupsLeft(s: State, zeroForOne: bool): nat {
    if s.dyn.None? then 0
    else if zeroForOne then (if s.spacingIdx > MIN_TICK then s.spacingIdx - MIN_TICK else 0)
    else (if s.spacingIdx < MAX_TICK then MAX_TICK - s.spacingIdx else 0)
  }

  /** Everything one iteration guarantees: the position is kept, the price moves only forward and never
      past the boundary, what it trades is within the spot price, and unless it finishes it moves to the
      next group with the boundary still unmatched and uncrossed. */
  ghost predicate StepGuarantee(i: Inner, n: Inner, b: Boundary, zeroForOne: bool) {
    && Approaching(n, b, zeroForOne)
    && Ahead(i.s.sqrtPrice, n.s.sqrtPrice, zeroForOne)
    && n.s.remaining <= i.s.remaining && i.s.out <= n.s.out
    && WithinSpot(n.s.out - i.s.out, i.s.remaining - n.s.remaining, i.s.sqrtPrice, zeroForOne)
    && n.s.tickSpacing == i.s.tickSpacing && n.s.baseFeeRate == i.s.baseFeeRate && n.s.liquidity == i.s.liquidity
    && (n.s.dyn.Some? <==> i.s.dyn.Some?)
    && n.unfilled <= i.unfilled
    && (n.s.sqrtPrice != RaydiumPrice(b.tickIndex) ==> n.unfilled == i.unfilled && n.liquidityNext == i.liquidityNext)
    && (n.s.sqrtPrice == RaydiumPrice(b.tickIndex) && n.s.remaining > 0 ==>
          n.unfilled == 0 && n.s.tick == TickAfterCross(b.tickIndex, false, zeroForOne))
    && (!Done(n, b, zeroForOne) ==> GroupsLeft(n.s, zeroForOne) < GroupsLeft(i.s, zeroForOne))
  }

  lemma StepOnceSound(i: Inner, b: Boundary, zeroForOne: bool, feeOnInput: bool)
    requires Approaching(i, b, zeroForOne)
    ensures var next := StepOnce(i, b, zeroForOne, feeOnInput);
            next.Ok? ==> StepGuarantee(i, next.value, b, zeroForOne)
  {
    hide RaydiumPrice, MoveTo, Settle, StepBound, AdvanceIndex, WithinSpot;
    var next := StepOnce(i, b, zeroForOne, feeOnInput);
    if next.Ok? {
      var tickPrice := RaydiumPrice(b.tickIndex);
      TargetIsTick(b.tickIndex, zeroForOne);
      var bound := StepBound(i, tickPrice, zeroForOne);
      BoundBetween(i, b, zeroForOne);
      var s := i.s.Charged();
      MoveSound(s, bound.price, StepRate(i), zeroForOne, feeOnInput);
      var moved := MoveTo(s, bound.price, StepRate(i), zeroForOne, feeOnInput).value;
      SettleSound(i, moved, b, bound, StepRate(i), zeroForOne, feeOnInput);
      var settled := Settle(i, moved, b, bound, StepRate(i), zeroForOne, feeOnInput).value;
      StepSpot(s, moved.s, settled.s, moved.next, zeroForOne);
      EdgeStaysAhead(i, b, moved.next, settled.s, zeroForOne);
      AdvanceSound(settled.s.(sqrtPrice := moved.next), zeroForOne, bound.skipped, tickPrice, b.tickIndex);
      if !Done(next.value, b, zeroForOne) {
        GroupsShrink(i, b, zeroForOne);
      }
    }
  }

  /** What one iteration trades, exactly: a step along the curve to its bound, and at the boundary a match of what is
      left against the orders resting there. */
  ghost predicate StepsTo(i: Inner, n: Inner, stop: nat, bound: nat, feeIn: nat, feeOut: nat, zeroForOne: bool) {
    exists spent: int, paid: int ::
      && TradesTo(n.s.sqrtPrice, spent, paid, i.s.sqrtPrice, bound, i.s.liquidity,
                  i.s.remaining, feeIn, feeOut, zeroForOne)
      && spent <= i.s.remaining
      && var consumed, out := i.s.remaining - n.s.remaining, n.s.out - i.s.out;
      if n.s.sqrtPrice == stop
      then Matches(consumed - spent, out - paid, i.unfilled - n.unfilled, i.s.remaining - spent, i.unfilled, stop,
                   feeIn, feeOut, zeroForOne)
      else consumed == spent && out == paid && n.unfilled == i.unfilled
  }

  lemma IterationTrades(i: Inner, b: Boundary, zeroForOne: bool, feeOnInput: bool)
    requires Approaching(i, b, zeroForOne)
    ensures var next, stop := StepOnce(i, b, zeroForOne, feeOnInput), RaydiumPrice(b.tickIndex);
            next.Ok? ==> StepsTo(i, next.value, stop, StepBound(i, stop, zeroForOne).price,
                                 if feeOnInput then StepRate(i) else 0, if feeOnInput then 0
                                 else StepRate(i), zeroForOne)
  {
    hide RaydiumPrice, MoveTo, Settle, StepBound, AdvanceIndex, WithinSpot, TradesTo, Matches;
    var next := StepOnce(i, b, zeroForOne, feeOnInput);
    if next.Ok? {
      var stop := RaydiumPrice(b.tickIndex);
      TargetIsTick(b.tickIndex, zeroForOne);
      var bound := StepBound(i, stop, zeroForOne);
      BoundBetween(i, b, zeroForOne);
      var s := i.s.Charged();
      var feeIn, feeOut := if feeOnInput then StepRate(i) else 0, if feeOnInput then 0 else StepRate(i);
      MoveSound(s, bound.price, StepRate(i), zeroForOne, feeOnInput);
      MoveTrades(s, bound.price, StepRate(i), zeroForOne, feeOnInput);
      var moved := MoveTo(s, bound.price, StepRate(i), zeroForOne, feeOnInput).value;
      SettleSound(i, moved, b, bound, StepRate(i), zeroForOne, feeOnInput);
      SettleTrades(i, moved, b, bound, StepRate(i), zeroForOne, feeOnInput);
      var settled := Settle(i, moved, b, bound, StepRate(i), zeroForOne, feeOnInput).value;
      AdvanceKeeps(settled.s.(sqrtPrice := moved.next), zeroForOne, bound.skipped, stop, b.tickIndex);
      assert TradesTo(next.value.s.sqrtPrice, s.remaining - moved.s.remaining, moved.s.out - s.out, i.s.sqrtPrice,
                      bound.price, i.s.liquidity, i.s.remaining, feeIn, feeOut, zeroForOne);
    }
  }

  lemma AdvanceKeeps(s: State, zeroForOne: bool, skipped: bool, tickPrice: nat, tickNext: int)
    requires s.dyn.Some? ==> s.tickSpacing > 0
    ensures var after := AdvanceIndex(s, zeroForOne, skipped, tickPrice, tickNext);
            after == s.(spacingIdx := after.spacingIdx, dyn := after.dyn)
  {
  }

  /** Settling on the boundary matches its orders, and anywhere else none. */
  lemma SettleTrades(i: Inner, moved: Moved, b: Boundary, bound: Bound, feeRate: nat,
                     zeroForOne: bool, feeOnInput: bool)
    requires InRange(b.tickIndex) && feeRate < FEE_DENOMINATOR && i.unfilled <= U64MAX
    requires MIN_SQRT_PRICE <= moved.next && moved.s.remaining <= U64MAX && moved.s.out <= U64MAX
    ensures var settled := Settle(i, moved, b, bound, feeRate, zeroForOne, feeOnInput);
            settled.Ok? && RaydiumPrice(b.tickIndex) == moved.next ==>
              var n := settled.value;
              Matches(moved.s.remaining - n.s.remaining, n.s.out - moved.s.out,
                      i.unfilled - n.unfilled, moved.s.remaining,
                      i.unfilled, moved.next, if feeOnInput then feeRate
                      else 0, if feeOnInput then 0 else feeRate, zeroForOne)
  {
    hide RaydiumPrice, MatchLimitOrders, Matches, LandedTick;
    if RaydiumPrice(b.tickIndex) == moved.next {
      SquareMono(MIN_SQRT_PRICE, moved.next);
      MatchTrades(moved.s, i.unfilled, moved.next, feeRate, zeroForOne, feeOnInput);
    }
  }

  /** The trade of one iteration: along the curve, then possibly at the price reached. */
  lemma StepSpot(s: State, moved: State, settled: State, next: nat, zeroForOne: bool)
    requires Ahead(s.sqrtPrice, next, zeroForOne)
    requires moved.remaining <= s.remaining && s.out <= moved.out
    requires settled.remaining <= moved.remaining && moved.out <= settled.out
    requires WithinSpot(moved.out - s.out, s.remaining - moved.remaining, s.sqrtPrice, zeroForOne)
    requires || (settled.remaining == moved.remaining && settled.out == moved.out)
             || WithinSpot(settled.out - moved.out, moved.remaining - settled.remaining, next, zeroForOne)
    ensures WithinSpot(settled.out - s.out, s.remaining - settled.remaining, s.sqrtPrice, zeroForOne)
  {
    hide WithinSpot;
    if settled.remaining != moved.remaining || settled.out != moved.out {
      SpotWorsens(settled.out - moved.out, moved.remaining - settled.remaining, s.sqrtPrice, next, zeroForOne);
      SpotAdds(moved.out - s.out, s.remaining - moved.remaining, settled.out - moved.out,
               moved.remaining - settled.remaining,
               s.sqrtPrice, zeroForOne);
    }
  }

  /** A step that kept its bound has not passed the end of the group it started in. */
  lemma EdgeStaysAhead(i: Inner, b: Boundary, next: nat, after: State, zeroForOne: bool)
    requires Approaching(i, b, zeroForOne)
    requires Ahead(next, StepBound(i, RaydiumPrice(b.tickIndex), zeroForOne).price, zeroForOne)
    requires after.spacingIdx == i.s.spacingIdx && after.tickSpacing == i.s.tickSpacing
    ensures i.s.dyn.Some? && !StepBound(i, RaydiumPrice(b.tickIndex), zeroForOne).skipped ==>
              Ahead(next, RaydiumPrice(GroupEdge(after, zeroForOne)), zeroForOne)
  {
    hide RaydiumPrice;
  }

  /** A bound strictly before the boundary is a group edge strictly inside the tick range. */
  lemma GroupsShrink(i: Inner, b: Boundary, zeroForOne: bool)
    requires Approaching(i, b, zeroForOne)
    requires StepBound(i, RaydiumPrice(b.tickIndex), zeroForOne).price != RaydiumPrice(b.tickIndex)
    ensures !StepBound(i, RaydiumPrice(b.tickIndex), zeroForOne).skipped && i.s.dyn.Some?
    ensures if zeroForOne then MIN_TICK < i.s.spacingIdx else i.s.spacingIdx < MAX_TICK
  {
    hide RaydiumPrice;
    BoundBetween(i, b, zeroForOne);
    RaydiumPriceBounds();
    TargetIsTick(b.tickIndex, zeroForOne);
    InsideGroup(i.s, zeroForOne);
  }

  lemma InsideGroup(s: State, zeroForOne: bool)
    requires s.tickSpacing > 0
    ensures zeroForOne && MIN_TICK < GroupEdge(s, true) ==> MIN_TICK < s.spacingIdx
    ensures !zeroForOne && GroupEdge(s, false) < MAX_TICK ==> s.spacingIdx < MAX_TICK
  {
    if zeroForOne && s.spacingIdx < 0 {
      MulMono(1, s.tickSpacing, -s.spacingIdx);
    } else if !zeroForOne && s.spacingIdx >= 0 {
      MulMono(1, s.tickSpacing, s.spacingIdx + 1);
    }
  }

  /** The walk to one boundary, group by group. */
  function StepToBoundary(i: Inner, b: Boundary, zeroForOne: bool, feeOnInput: bool): Result<State, Error>
    requires Approaching(i, b, zeroForOne)
    decreases GroupsLeft(i.s, zeroForOne)
  {
    hide Approaching, StepOnce, Done, GroupsLeft, RaydiumPrice;
    var next :- StepOnce(i, b, zeroForOne, feeOnInput);
    StepOnceSound(i, b, zeroForOne, feeOnInput);
    if Done(next, b, zeroForOne) then Ok(next.s.(liquidity := next.liquidityNext))
    else StepToBoundary(next, b, zeroForOne, feeOnInput)
  }

  /** What a finished walk to a boundary guarantees. */
  ghost predicate WalkGuarantee(s: State, n: State, b: Boundary, zeroForOne: bool) {
    && Positioned(n, zeroForOne)
    && Ahead(s.sqrtPrice, n.sqrtPrice, zeroForOne) && Ahead(n.sqrtPrice, RaydiumPrice(b.tickIndex), zeroForOne)
    && n.remaining <= s.remaining && s.out <= n.out
    && WithinSpot(n.out - s.out, s.remaining - n.remaining, s.sqrtPrice, zeroForOne)
    && n.tickSpacing == s.tickSpacing && n.baseFeeRate == s.baseFeeRate
    && (n.dyn.Some? <==> s.dyn.Some?)
    && (n.remaining > 0 ==> n.sqrtPrice == RaydiumPrice(b.tickIndex)
                            && n.tick == TickAfterCross(b.tickIndex, false, zeroForOne))
  }

  lemma {:induction false} StepToBoundarySound(i: Inner, b: Boundary, zeroForOne: bool, feeOnInput: bool)
    requires Approaching(i, b, zeroForOne)
    ensures var walked := StepToBoundary(i, b, zeroForOne, feeOnInput);
            walked.Ok? ==> WalkGuarantee(i.s, walked.value, b, zeroForOne)
    decreases GroupsLeft(i.s, zeroForOne)
  {
    hide StepOnce, RaydiumPrice, WithinSpot, GroupsLeft;
    var next := StepOnce(i, b, zeroForOne, feeOnInput);
    TargetIsTick(b.tickIndex, zeroForOne);
    StepOnceSound(i, b, zeroForOne, feeOnInput);
    if next.Ok? && !Done(next.value, b, zeroForOne) {
      var n := next.value;
      StepToBoundarySound(n, b, zeroForOne, feeOnInput);
      var walked := StepToBoundary(n, b, zeroForOne, feeOnInput);
      if walked.Ok? {
        SpotWorsens(walked.value.out - n.s.out, n.s.remaining - walked.value.remaining,
                    i.s.sqrtPrice, n.s.sqrtPrice, zeroForOne);
        SpotAdds(n.s.out - i.s.out, i.s.remaining - n.s.remaining,
                 walked.value.out - n.s.out, n.s.remaining - walked.value.remaining, i.s.sqrtPrice, zeroForOne);
      }
    }
  }

  /** The liquidity past a boundary: with its net added going up and taken off going down. */
  function LiquidityPast(liquidity: nat, b: Boundary, zeroForOne: bool): int {
    if !b.initialized || b.liquidityNet.None? then liquidity
    else if zeroForOne then liquidity - b.liquidityNet.value
    else liquidity + b.liquidityNet.value
  }

  /** One iteration crosses the boundary exactly when it reaches it and empties its orders. */
  lemma StepCrosses(i: Inner, b: Boundary, zeroForOne: bool, feeOnInput: bool)
    requires Approaching(i, b, zeroForOne)
    ensures var next := StepOnce(i, b, zeroForOne, feeOnInput);
            next.Ok? ==>
              var n := next.value;
              n.liquidityNext == if n.s.sqrtPrice == RaydiumPrice(b.tickIndex) && n.unfilled == 0
              then LiquidityPast(i.liquidityNext, b, zeroForOne) else i.liquidityNext
  {
    hide RaydiumPrice, MoveTo, StepBound, MatchLimitOrders, LandedTick;
  }

  /** A walk crosses its boundary at most once, and exactly once when input is left: the liquidity changes by
      the boundary's net, or not at all. */
  lemma {:induction false} WalkCrossesOnce(i: Inner, b: Boundary, zeroForOne: bool, feeOnInput: bool)
    requires Approaching(i, b, zeroForOne)
    ensures var walked := StepToBoundary(i, b, zeroForOne, feeOnInput);
            walked.Ok? ==>
              var n, past := walked.value, LiquidityPast(i.liquidityNext, b, zeroForOne);
              && (n.remaining > 0 ==> n.liquidity == past)
              && (n.liquidity == past || n.liquidity == i.liquidityNext)
              && (n.sqrtPrice != RaydiumPrice(b.tickIndex) ==> n.liquidity == i.liquidityNext)
    decreases GroupsLeft(i.s, zeroForOne)
  {
    hide StepOnce, RaydiumPrice, WithinSpot, GroupsLeft, LiquidityPast;
    var next := StepOnce(i, b, zeroForOne, feeOnInput);
    TargetIsTick(b.tickIndex, zeroForOne);
    StepOnceSound(i, b, zeroForOne, feeOnInput);
    StepCrosses(i, b, zeroForOne, feeOnInput);
    if next.Ok? && !Done(next.value, b, zeroForOne) {
      WalkCrossesOnce(next.value, b, zeroForOne, feeOnInput);
    }
  }

  /** Ticks left in the swap direction: the outer loop's measure. */
  function TicksLeft(s: State, zeroForOne: bool): nat {
    if zeroForOne then (if s.tick >= MIN_TICK then s.tick - MIN_TICK + 1 else 0)
    else (if s.tick < MAX_TICK then MAX_TICK - s.tick else 0)
  }

  lemma AtBoundary(s: State, b: Boundary, zeroForOne: bool)
    requires Positioned(s, zeroForOne) && StopFrom(s.tick, b, zeroForOne)
    ensures Approaching(Inner(s, b.unfilled, s.liquidity), b, zeroForOne)
  {
    hide RaydiumPrice;
    if zeroForOne {
      PriceOrder(b.tickIndex, s.tick);
    } else {
      PriceOrder(s.tick + 1, b.tickIndex);
    }
  }

  /** The whole swap: boundary after boundary, until the input is spent, the price limit is reached, or
      the provider knows no further stop. */
  function Run(s: State, zeroForOne: bool, feeOnInput: bool, ticks: TickProvider): Result<State, Error>
    requires Positioned(s, zeroForOne) && Honours(ticks, zeroForOne)
    decreases s.remaining > 0, TicksLeft(s, zeroForOne)
  {
    hide Positioned, StepToBoundary, RaydiumPrice;
    if s.remaining == 0 || s.sqrtPrice == Limit(zeroForOne) then Ok(s)
    else
      match ticks(s.tick, zeroForOne)
      case None => Ok(s)
      case Some(b) =>
        AtBoundary(s, b, zeroForOne);
        var next :- StepToBoundary(Inner(s, b.unfilled, s.liquidity), b, zeroForOne, feeOnInput);
        StepToBoundarySound(Inner(s, b.unfilled, s.liquidity), b, zeroForOne, feeOnInput);
        Run(next, zeroForOne, feeOnInput, ticks)
  }
}
