/** The Raydium exact-in quote as the program runs it: a swap state updated in place by two nested
    loops, proved equal to the run it specifies, and what that means for the quote. */
module RaydiumQuote {
  import opened Rounding
  import opened Wrappers
  import opened MachineIntegers
  import opened TickTables
  import opened TickMath
  import opened RaydiumMath
  import opened RaydiumFee
  import opened RaydiumRun
  import opened RaydiumTheorems

  /** The decoded pool. Absent prices or liquidity stand for nil pointers. */
  datatype Pool = Pool(
    sqrtPrice: Option<nat>,
    liquidity: Option<nat>,
    tickCurrent: int,
    tickSpacing: nat,
    feeRate: nat,
    feeOn: nat,
    status: nat,
    dynamicFee: DynamicFee,
    blockTimestamp: nat
  ) {
    predicate SwapDisabled() {
      (status / 16) % 2 == 1
    }

    /** Which side the fee is on: by default the input, otherwise the token the pool names. */
    predicate IsFeeOnInput(zeroForOne: bool) {
      if feeOn == 1 then zeroForOne else if feeOn == 2 then !zeroForOne else true
    }

    /** What the program keeps true of a live pool: its tick brackets its price, and the rate is a fraction. */
    ghost predicate Consistent() {
      && feeRate < FEE_DENOMINATOR
      && (dynamicFee.Enabled() ==> tickSpacing > 0)
      && (sqrtPrice.Some? ==> Bracketed(tickCurrent, sqrtPrice.value))
    }
  }

  datatype QuoteResult = QuoteResult(amountOut: nat, amountInConsumed: nat)

  function NewState(pool: Pool, amountIn: nat): State
    requires pool.sqrtPrice.Some? && pool.liquidity.Some? && (pool.dynamicFee.Enabled() ==> pool.tickSpacing > 0)
  {
    var plain := State(amountIn, 0, pool.sqrtPrice.value, pool.liquidity.value, pool.tickCurrent,
                       pool.tickSpacing, pool.feeRate, 0, None);
    if !pool.dynamicFee.Enabled() then plain
    else
      var index := FloorIndex(pool.tickCurrent, pool.tickSpacing);
      plain.(spacingIdx := index, dyn := Some(pool.dynamicFee.UpdateReference(index, pool.blockTimestamp)))
  }

  lemma NewStatePositioned(pool: Pool, amountIn: nat, zeroForOne: bool)
    requires pool.Consistent() && pool.sqrtPrice.Some? && pool.liquidity.Some? && amountIn <= U64MAX
    ensures Positioned(NewState(pool, amountIn), zeroForOne)
    ensures NewState(pool, amountIn).remaining == amountIn
  {
    hide RaydiumPrice;
    if pool.dynamicFee.Enabled() {
      var s := NewState(pool, amountIn);
      Distribute(s.tickSpacing, s.spacingIdx, 1);
      EdgeAhead(s, if zeroForOne then s.tick else s.tick + 1, zeroForOne);
    }
  }

  function QuoteExactIn(pool: Pool, zeroForOne: bool, amountIn: nat, ticks: TickProvider): Result<QuoteResult, Error>
    requires pool.Consistent() && Honours(ticks, zeroForOne) && amountIn <= U64MAX
  {
    if pool.sqrtPrice.None? || pool.liquidity.None? then Err(InvalidPool)
    else if pool.SwapDisabled() then Err(Error.SwapDisabled)
    else
      NewStatePositioned(pool, amountIn, zeroForOne);
      RunSound(NewState(pool, amountIn), zeroForOne, pool.IsFeeOnInput(zeroForOne), ticks);
      var end :- Run(NewState(pool, amountIn), zeroForOne, pool.IsFeeOnInput(zeroForOne), ticks);
      Ok(QuoteResult(end.out, amountIn - end.remaining))
  }

  // ---- what a quote promises ----

  /** A quote never consumes more than it was given and never beats the pool's spot price. */
  lemma QuoteNeverBeatsSpot(pool: Pool, zeroForOne: bool, amountIn: nat, ticks: TickProvider)
    requires pool.Consistent() && Honours(ticks, zeroForOne) && amountIn <= U64MAX
    ensures var quote := QuoteExactIn(pool, zeroForOne, amountIn, ticks);
            quote.Ok? ==>
              && pool.sqrtPrice.Some?
              && quote.value.amountInConsumed <= amountIn
              && WithinSpot(quote.value.amountOut, quote.value.amountInConsumed, pool.sqrtPrice.value, zeroForOne)
  {
    hide RaydiumPrice, Run, WithinSpot;
    if pool.sqrtPrice.Some? && pool.liquidity.Some? {
      NewStatePositioned(pool, amountIn, zeroForOne);
      RunSound(NewState(pool, amountIn), zeroForOne, pool.IsFeeOnInput(zeroForOne), ticks);
    }
  }

  /** More input never buys less, and whenever the larger amount can be quoted the smaller can too. */
  lemma QuoteMonotone(pool: Pool, zeroForOne: bool, a: nat, b: nat, ticks: TickProvider)
    requires pool.Consistent() && Honours(ticks, zeroForOne) && a <= b <= U64MAX
    requires QuoteExactIn(pool, zeroForOne, b, ticks).Ok?
    ensures QuoteExactIn(pool, zeroForOne, a, ticks).Ok?
    ensures QuoteExactIn(pool, zeroForOne, a, ticks).value.amountOut
         <= QuoteExactIn(pool, zeroForOne, b, ticks).value.amountOut
  {
    hide RaydiumPrice, Run;
    NewStatePositioned(pool, a, zeroForOne);
    NewStatePositioned(pool, b, zeroForOne);
    RunMonotone(NewState(pool, a), NewState(pool, b), zeroForOne, pool.IsFeeOnInput(zeroForOne), ticks);
  }

  /** A pool without a price or liquidity is invalid, and one with bit 4 of its status set does not swap; nothing else
      is refused before the run, and no run ends in either error. */
  lemma QuoteRefuses(pool: Pool, zeroForOne: bool, amountIn: nat, ticks: TickProvider)
    requires pool.Consistent() && Honours(ticks, zeroForOne) && amountIn <= U64MAX
    ensures var quote, valid := QuoteExactIn(pool, zeroForOne, amountIn, ticks),
                                pool.sqrtPrice.Some? && pool.liquidity.Some?;
            && (quote == Err(InvalidPool) <==> !valid)
            && (quote == Err(Error.SwapDisabled) <==> valid && (pool.status / 0x10) % 2 == 1)
  {
    hide RaydiumPrice, Run, WithinSpot, OutputDelta;
    if pool.sqrtPrice.Some? && pool.liquidity.Some? {
      NewStatePositioned(pool, amountIn, zeroForOne);
      if Run(NewState(pool, amountIn), zeroForOne, pool.IsFeeOnInput(zeroForOne), ticks).Err? {
        var at, b := RunFault(NewState(pool, amountIn), zeroForOne, pool.IsFeeOnInput(zeroForOne), ticks);
      }
    }
  }

  /** Where a run starts. A pool charges a dynamic fee unless its record is all zero, and then starts in the
      tick-spacing group of its tick with the reference decayed to the present. */
  lemma QuoteStarts(pool: Pool, amountIn: nat)
    requires pool.Consistent() && pool.sqrtPrice.Some? && pool.liquidity.Some?
    ensures var s, d := NewState(pool, amountIn), pool.dynamicFee;
            && s == State(amountIn, 0, pool.sqrtPrice.value, pool.liquidity.value, pool.tickCurrent, pool.tickSpacing,
                          pool.feeRate, s.spacingIdx, s.dyn)
            && (s.dyn.None? <==> d == DynamicFee(0, 0, 0, 0, 0, 0, 0, 0, 0))
            && (s.dyn.Some? ==>
                  var group := s.spacingIdx * pool.tickSpacing;
                  && group <= pool.tickCurrent < group + pool.tickSpacing
                  && s.dyn.value == d.UpdateReference(s.spacingIdx, pool.blockTimestamp))
  {
    hide DynamicFee.UpdateReference;
  }

  // ---- a quote of one segment, exactly ----

  /** Without a dynamic fee an iteration runs to the boundary at the pool's own rate. */
  lemma PlainIteration(i: Inner, b: Boundary, zeroForOne: bool, feeOnInput: bool)
    requires Approaching(i, b, zeroForOne) && i.s.dyn.None?
    ensures var next, stop := StepOnce(i, b, zeroForOne, feeOnInput), RaydiumPrice(b.tickIndex);
            next.Ok? ==>
              && StepsTo(i, next.value, stop, stop, if feeOnInput then i.s.baseFeeRate else 0,
                         if feeOnInput then 0 else i.s.baseFeeRate, zeroForOne)
              && Done(next.value, b, zeroForOne)
  {
    hide RaydiumPrice, StepOnce, StepsTo, WithinSpot, Positioned;
    IterationTrades(i, b, zeroForOne, feeOnInput);
    StepOnceSound(i, b, zeroForOne, feeOnInput);
    TargetIsTick(b.tickIndex, zeroForOne);
  }

  /** The quote of a pool without a dynamic fee whose first stop is also its last, in both directions and with the fee
      on either side: exactly one step along the curve towards that stop, at the pool's own rate, and one match of what
      is left against the orders resting there. */
  lemma QuoteOfOneSegment(pool: Pool, zeroForOne: bool, amountIn: nat, ticks: TickProvider, b: Boundary, feeIn: nat,
                          feeOut: nat)
    requires pool.Consistent() && Honours(ticks, zeroForOne) && 0 < amountIn <= U64MAX
    requires pool.sqrtPrice.Some? && pool.liquidity.Some? && (pool.status / 0x10) % 2 == 0
    requires pool.dynamicFee == DynamicFee(0, 0, 0, 0, 0, 0, 0, 0, 0)
    requires pool.sqrtPrice.value != (if zeroForOne then 4_295_048_016 else 79_226_673_521_066_979_257_578_248_091)
    requires ticks(pool.tickCurrent, zeroForOne) == Some(b)
    requires ticks(if zeroForOne then b.tickIndex - 1 else b.tickIndex, zeroForOne) == None
    requires var onInput := (pool.feeOn != 1 && pool.feeOn != 2) || (pool.feeOn == 1) == zeroForOne;
             feeIn == (if onInput then pool.feeRate else 0) && feeOut == (if onInput then 0 else pool.feeRate)
    ensures var quote := QuoteExactIn(pool, zeroForOne, amountIn, ticks);
            quote.Ok? ==>
              IsOneSegment(quote.value, pool.sqrtPrice.value, RaydiumPrice(b.tickIndex), pool.liquidity.value, amountIn,
                           b.unfilled, feeIn, feeOut, zeroForOne)
  {
    hide RaydiumPrice, StepOnce, StepsTo, WithinSpot, IsOneSegment;
    var s, onInput := NewState(pool, amountIn), pool.IsFeeOnInput(zeroForOne);
    NewStatePositioned(pool, amountIn, zeroForOne);
    var i := Inner(s, b.unfilled, s.liquidity);
    AtBoundary(s, b, zeroForOne);
    assert Run(s, zeroForOne, onInput, ticks) == OneWalk(i, b, zeroForOne, onInput, ticks) by {
      hide StepToBoundary;
    }
    hide Run;
    PlainIteration(i, b, zeroForOne, onInput);
    var next := StepOnce(i, b, zeroForOne, onInput);
    if next.Ok? {
      StepToBoundarySound(i, b, zeroForOne, onInput);
      var end := next.value.s.(liquidity := next.value.liquidityNext);
      assert StepToBoundary(i, b, zeroForOne, onInput) == Ok(end);
      RunStops(end, zeroForOne, onInput, ticks);
      OneSegment(i, next.value, QuoteResult(end.out, amountIn - end.remaining),
                 RaydiumPrice(b.tickIndex), feeIn, feeOut,
                 zeroForOne);
    }
  }

  /** A run from its first boundary on. */
  function OneWalk(i: Inner, b: Boundary, zeroForOne: bool, feeOnInput: bool, ticks: TickProvider): Result<State, Error>
    requires Approaching(i, b, zeroForOne) && Honours(ticks, zeroForOne)
  {
    hide StepToBoundary, RaydiumPrice;
    var next :- StepToBoundary(i, b, zeroForOne, feeOnInput);
    StepToBoundarySound(i, b, zeroForOne, feeOnInput);
    Run(next, zeroForOne, feeOnInput, ticks)
  }

  lemma RunStops(s: State, zeroForOne: bool, feeOnInput: bool, ticks: TickProvider)
    requires Positioned(s, zeroForOne) && Honours(ticks, zeroForOne)
    requires s.remaining == 0 || ticks(s.tick, zeroForOne) == None
    ensures Run(s, zeroForOne, feeOnInput, ticks) == Ok(s)
  {
  }

  /** The amounts of one step towards a stop, and of one match there. */
  ghost predicate StepAndMatch(quote: QuoteResult, next: nat, spent: int, paid: int, filled: int, price: nat, stop: nat,
                               liquidity: nat, amountIn: nat, unfilled: nat, feeIn: nat, feeOut: nat, zeroForOne: bool)
  {
    && TradesTo(next, spent, paid, price, stop, liquidity, amountIn, feeIn, feeOut, zeroForOne) && spent <= amountIn
    && var drawn, bought := quote.amountInConsumed - spent, quote.amountOut - paid;
    if next == stop then Matches(drawn, bought, filled, amountIn - spent, unfilled, stop, feeIn, feeOut, zeroForOne)
    else drawn == bought == 0
  }

  ghost predicate IsOneSegment(quote: QuoteResult, price: nat, stop: nat, liquidity: nat, amountIn: nat, unfilled: nat,
                               feeIn: nat, feeOut: nat, zeroForOne: bool)
  {
    exists next, spent, paid, filled ::
      StepAndMatch(quote, next, spent, paid, filled, price, stop, liquidity, amountIn,
                   unfilled, feeIn, feeOut, zeroForOne)
  }

  lemma OneSegment(i: Inner, n: Inner, quote: QuoteResult, stop: nat, feeIn: nat, feeOut: nat, zeroForOne: bool)
    requires StepsTo(i, n, stop, stop, feeIn, feeOut, zeroForOne) && i.s.out == 0
    requires quote.amountOut == n.s.out && quote.amountInConsumed == i.s.remaining - n.s.remaining
    ensures IsOneSegment(quote, i.s.sqrtPrice, stop, i.s.liquidity, i.s.remaining,
                         i.unfilled, feeIn, feeOut, zeroForOne)
  {
    hide TradesTo, Matches;
    var spent: int, paid: int :|
      && TradesTo(n.s.sqrtPrice, spent, paid, i.s.sqrtPrice, stop, i.s.liquidity,
                  i.s.remaining, feeIn, feeOut, zeroForOne)
      && spent <= i.s.remaining
      && var consumed, out := i.s.remaining - n.s.remaining, n.s.out - i.s.out;
      if n.s.sqrtPrice == stop
      then Matches(consumed - spent, out - paid, i.unfilled - n.unfilled, i.s.remaining - spent, i.unfilled, stop,
                   feeIn, feeOut, zeroForOne)
      else consumed == spent && out == paid && n.unfilled == i.unfilled;
    assert StepAndMatch(quote, n.s.sqrtPrice, spent, paid, i.unfilled - n.unfilled, i.s.sqrtPrice, stop, i.s.liquidity,
                        i.s.remaining, i.unfilled, feeIn, feeOut, zeroForOne);
  }

  // ---- what a quote consumes ----

  /** The quote meets dust: on its way it reaches a match whose whole book costs less than what is left, that for
      rounding it may not buy out, and that `gap` more of input would. */
  ghost predicate QuoteMeetsDust(pool: Pool, zeroForOne: bool, amountIn: nat, gap: nat, ticks: TickProvider)
    requires pool.Consistent() && Honours(ticks, zeroForOne) && amountIn <= U64MAX
    requires pool.sqrtPrice.Some? && pool.liquidity.Some?
  {
    hide RaydiumPrice, RunReaches, Dusty;
    NewStatePositioned(pool, amountIn, zeroForOne);
    MeetsDust(NewState(pool, amountIn), gap, zeroForOne, pool.IsFeeOnInput(zeroForOne), ticks)
  }

  /** More input consumes no less unless the smaller quote meets dust; that one consumes all of its input, and the
      larger consumes less exactly when it also ends short of that. Without resting limit orders there is no dust. */
  lemma QuoteConsumption(pool: Pool, zeroForOne: bool, a: nat, b: nat, ticks: TickProvider)
    requires pool.Consistent() && Honours(ticks, zeroForOne) && a <= b <= U64MAX
    requires QuoteExactIn(pool, zeroForOne, b, ticks).Ok?
    ensures QuoteExactIn(pool, zeroForOne, a, ticks).Ok? && pool.sqrtPrice.Some? && pool.liquidity.Some?
    ensures var small := QuoteExactIn(pool, zeroForOne, a, ticks).value.amountInConsumed;
            var large := QuoteExactIn(pool, zeroForOne, b, ticks).value.amountInConsumed;
            var dust := QuoteMeetsDust(pool, zeroForOne, a, b - a, ticks);
            && (dust ==> small == a)
            && (small <= large <==> !(dust && large < a))
            && (NoOrders(ticks, zeroForOne) ==> small <= large)
  {
    hide RaydiumPrice, Run, RunReaches, Dusty;
    var s, t, feeOnInput := NewState(pool, a), NewState(pool, b), pool.IsFeeOnInput(zeroForOne);
    NewStatePositioned(pool, a, zeroForOne);
    NewStatePositioned(pool, b, zeroForOne);
    RunMonotone(s, t, zeroForOne, feeOnInput, ticks);
    RunDust(s, t, zeroForOne, feeOnInput, ticks);
    RunSound(s, zeroForOne, feeOnInput, ticks);
    RunSound(t, zeroForOne, feeOnInput, ticks);
    if MeetsDust(s, b - a, zeroForOne, feeOnInput, ticks) {
      var at, stop :| RunReaches(s, at, stop, zeroForOne, feeOnInput, ticks)
                      && Dusty(at, b - a, stop, zeroForOne, feeOnInput);
      RunSpends(s, at, b - a, stop, zeroForOne, feeOnInput, ticks);
    }
  }

  /** A pool at tick 0 with no liquidity, a 1% fee on the input, and 99 resting at that tick. */
  const BOOK_POOL: Pool := Pool(Some(Q64), Some(0), 0, 1, 10_000, 0, 0, DynamicFee(0, 0, 0, 0, 0, 0, 0, 0, 0), 0)

  function OneBook(fromTick: int, zeroForOne: bool): Option<Boundary> {
    if zeroForOne && fromTick >= 0 then Some(Boundary(0, None, false, 99)) else None
  }

  lemma TickZero()
    ensures RaydiumPrice(0) == Q64 && Bracketed(0, Q64)
  {
    TableAtZero(MAGICS, Q64);
    PriceOrder(0, 1);
  }

  /** Whatever is offered, the run is one match against the book. */
  lemma BookRun(amountIn: nat, drawn: nat)
    requires 0 < amountIn <= U64MAX && drawn <= amountIn
    requires MatchLimitOrders(NewState(BOOK_POOL, amountIn), 99, Q64, 10_000, true, true)
          == Ok(Match(NewState(BOOK_POOL, amountIn).(remaining := amountIn - drawn, out := 99), 0))
    ensures BOOK_POOL.Consistent() && Honours(OneBook, true)
    ensures QuoteExactIn(BOOK_POOL, true, amountIn, OneBook) == Ok(QuoteResult(99, drawn))
  {
    hide RaydiumPrice, MatchLimitOrders, WithinSpot;
    TickZero();
    var s := NewState(BOOK_POOL, amountIn);
    NewStatePositioned(BOOK_POOL, amountIn, true);
    var b := Boundary(0, None, false, 99);
    AtBoundary(s, b, true);
    TargetIsTick(0, true);
    var end := s.(remaining := amountIn - drawn, out := 99, tick := -1);
    assert StepOnce(Inner(s, 99, 0), b, true, true) == Ok(Inner(end, 0, 0));
    StepOnceSound(Inner(s, 99, 0), b, true, true);
    assert StepToBoundary(Inner(s, 99, 0), b, true, true) == Ok(end);
    StepToBoundarySound(Inner(s, 99, 0), b, true, true);
    assert BOOK_POOL.IsFeeOnInput(true) && !BOOK_POOL.SwapDisabled();
    assert Run(end, true, true, OneBook) == Ok(end);
    assert Run(s, true, true, OneBook) == Ok(end);
  }

  /** The consumed input is not monotone: of 101 the quote consumes all, of 102 only the book's cost of 100,
      for the same 99 out. */
  lemma ConsumedInputNotMonotone()
    ensures BOOK_POOL.Consistent() && Honours(OneBook, true)
    ensures QuoteExactIn(BOOK_POOL, true, 101, OneBook) == Ok(QuoteResult(99, 101))
    ensures QuoteExactIn(BOOK_POOL, true, 102, OneBook) == Ok(QuoteResult(99, 100))
  {
    BookMatch(101);
    BookMatch(102);
    BookRun(101, 101);
    BookRun(102, 100);
  }

  lemma BookMatch(amountIn: nat)
    requires amountIn == 101 || amountIn == 102
    ensures var s := NewState(BOOK_POOL, amountIn);
            MatchLimitOrders(s, 99, Q64, 10_000, true, true)
            == Ok(Match(s.(remaining := if amountIn == 101 then 0 else 2, out := 99), 0))
  {
    FloorUnique(Q64, Q64 * Q64, Q64);
  }

  // ---- the program ----

  /** How a method that may fail relates to the step it implements. */
  ghost predicate Yields(spec: Result<State, Error>, err: Option<Error>, s: State) {
    match spec
    case Ok(n) => err.None? && s == n
    case Err(e) => err == Some(e)
  }

  class SwapState {
    var amountRemaining: nat
    var amountOut: nat
    var sqrtPrice: nat
    var liquidity: nat
    var tick: int
    const tickSpacing: nat
    const baseFeeRate: nat
    var tickSpacingIdx: int
    var dyn: Option<DynamicFee>

    ghost function Model(): State
      reads this
    {
      State(amountRemaining, amountOut, sqrtPrice, liquidity, tick, tickSpacing, baseFeeRate, tickSpacingIdx, dyn)
    }

    constructor (pool: Pool, amountIn: nat)
      requires pool.sqrtPrice.Some? && pool.liquidity.Some? && (pool.dynamicFee.Enabled() ==> pool.tickSpacing > 0)
      ensures Model() == NewState(pool, amountIn)
    {
      amountRemaining := amountIn;
      amountOut := 0;
      sqrtPrice := pool.sqrtPrice.value;
      liquidity := pool.liquidity.value;
      tick := pool.tickCurrent;
      tickSpacing := pool.tickSpacing;
      baseFeeRate := pool.feeRate;
      tickSpacingIdx := 0;
      dyn := None;
      new;
      if pool.dynamicFee.Enabled() {
        tickSpacingIdx := FloorIndex(pool.tickCurrent, pool.tickSpacing);
        dyn := Some(pool.dynamicFee.UpdateReference(tickSpacingIdx, pool.blockTimestamp));
      }
    }

    method UpdateVolatilityAccumulator()
      modifies this`dyn
      ensures Model() == old(Model()).Charged()
    {
      if dyn.Some? {
        dyn := Some(dyn.value.UpdateAccumulator(tickSpacingIdx));
      }
    }

    method BoundStep(target: nat, zeroForOne: bool) returns (bound: Bound)
      ensures bound == SpacingBoundedPrice(Model(), target, zeroForOne)
    {
      hide RaydiumPrice;
      if dyn.None? || liquidity == 0 || dyn.value.accumulator == dyn.value.maxAccumulator {
        return Bound(true, target, None);
      }
      var bounded := tickSpacingIdx * tickSpacing;
      if !zeroForOne {
        bounded := (tickSpacingIdx + 1) * tickSpacing;
      }
      bounded := if bounded < MIN_TICK then MIN_TICK else if bounded > MAX_TICK then MAX_TICK else bounded;
      var price := RaydiumSqrtPriceFromTick(bounded);
      if (zeroForOne && target > price) || (!zeroForOne && target < price) {
        return Bound(false, target, None);
      }
      return Bound(false, price, Some(bounded));
    }

    /** Book one fill. */
    method Book(amountIn: int, amountOut': int, fee: int, feeOnInput: bool) returns (err: Option<Error>)
      modifies this`amountRemaining, this`amountOut
      ensures Yields(Apply(old(Model()), amountIn, amountOut', fee, feeOnInput), err, Model())
    {
      var input := ToU64(amountIn);
      if input.Err? {
        return Some(input.error);
      }
      var consumed := input.value;
      if feeOnInput {
        var feeAmount := ToU64(fee);
        if feeAmount.Err? {
          return Some(feeAmount.error);
        }
        if input.value > U64MAX - feeAmount.value {
          return Some(AmountOverflow);
        }
        consumed := input.value + feeAmount.value;
      }
      if consumed > amountRemaining {
        return Some(AmountOverflow);
      }
      var out := ToU64(amountOut');
      if out.Err? {
        return Some(out.error);
      }
      if amountOut + out.value > U64MAX {
        return Some(AmountOverflow);
      }
      amountRemaining := amountRemaining - consumed;
      amountOut := amountOut + out.value;
      return None;
    }

    /** Swap along the curve to the bound, unless the price is already there. */
    method Swap(bounded: nat, feeRate: nat, zeroForOne: bool, feeOnInput: bool) returns (err: Option<Error>, next: nat)
      requires sqrtPrice > 0 && bounded > 0 && feeRate < FEE_DENOMINATOR
      modifies this`amountRemaining, this`amountOut
      ensures match MoveTo(old(Model()), bounded, feeRate, zeroForOne, feeOnInput)
              case Ok(m) => err.None? && Model() == m.s && next == m.next
              case Err(e) => err == Some(e)
    {
      hide ComputeSwapStep;
      err, next := None, bounded;
      if sqrtPrice != bounded {
        var step := ComputeSwapStep(sqrtPrice, bounded, liquidity, amountRemaining, feeRate, zeroForOne, feeOnInput);
        next := step.next;
        err := Book(step.amountIn, step.amountOut, step.fee, feeOnInput);
      }
    }

    /** Fill the orders resting at a tick. */
    method FillLimitOrders(unfilled: nat, tickSqrtPrice: nat, feeRate: nat, zeroForOne: bool, feeOnInput: bool)
      returns (err: Option<Error>, left: nat)
      requires feeRate < FEE_DENOMINATOR
      modifies this`amountRemaining, this`amountOut
      ensures match MatchLimitOrders(old(Model()), unfilled, tickSqrtPrice, feeRate, zeroForOne, feeOnInput)
              case Ok(m) => err.None? && Model() == m.s && left == m.unfilled
              case Err(e) => err == Some(e)
    {
      hide LimitOrderOutput, LimitOrderInput, PriceFromSqrtPrice, FeeOn, GrossUpFee;
      left := unfilled;
      if amountRemaining == 0 || unfilled == 0 {
        return None, left;
      }
      var price := PriceFromSqrtPrice(tickSqrtPrice, !zeroForOne);
      var amountIn, fee := amountRemaining, 0;
      if feeOnInput {
        fee := FeeOn(amountRemaining, feeRate);
        amountIn := amountRemaining - fee;
      }
      var gross := LimitOrderOutput(amountIn, price, zeroForOne);
      if gross > unfilled {
        gross := unfilled;
        amountIn := LimitOrderInput(unfilled, price, !zeroForOne);
        if feeOnInput {
          fee := GrossUpFee(amountIn, feeRate);
        }
      }
      var filled := ToU64(gross);
      if filled.Err? {
        return Some(filled.error), left;
      }
      left := unfilled - filled.value;
      var paid := gross;
      if !feeOnInput {
        fee := FeeOn(gross, feeRate);
        paid := gross - fee;
      }
      err := Book(amountIn, paid, fee, feeOnInput);
    }

    /** Match and cross a boundary the price has reached, or land the tick short of it. */
    method Arrive(next: nat, b: Boundary, bound: Bound, unfilled: nat, liquidityNext: nat, tickPrice: nat, feeRate: nat,
                  zeroForOne: bool, feeOnInput: bool)
      returns (err: Option<Error>, left: nat, crossed: nat)
      requires MIN_SQRT_PRICE <= next && feeRate < FEE_DENOMINATOR && tickPrice == RaydiumPrice(b.tickIndex)
      modifies this`amountRemaining, this`amountOut, this`tick
      ensures match Settle(Inner(old(Model()), unfilled, liquidityNext),
                           Moved(old(Model()), next), b, bound, feeRate, zeroForOne, feeOnInput)
              case Ok(n) => err.None? && Inner(Model(), left, crossed) == n
              case Err(e) => err == Some(e)
    {
      hide RaydiumPrice, MatchLimitOrders, LandedTick;
      err, left, crossed := None, unfilled, liquidityNext;
      if tickPrice == next {
        err, left := FillLimitOrders(unfilled, tickPrice, feeRate, zeroForOne, feeOnInput);
        if err.Some? {
          return;
        }
        if b.initialized && left == 0 {
          var net := CrossLiquidity(liquidityNext, b.liquidityNet, zeroForOne);
          if net.Err? {
            return Some(net.error), left, crossed;
          }
          crossed := net.value;
        }
        tick := TickAfterCross(b.tickIndex, left > 0, zeroForOne);
      } else if sqrtPrice != next {
        tick := LandedTick(next, bound);
      }
    }

    method UpdateDynamicFeeIndex(zeroForOne: bool, skipped: bool, tickPrice: nat, tickNext: int)
      requires dyn.Some? ==> tickSpacing > 0
      modifies this`dyn, this`tickSpacingIdx
      ensures Model() == AdvanceIndex(old(Model()), zeroForOne, skipped, tickPrice, tickNext)
    {
      if dyn.None? {
        return;
      }
      if skipped {
        var landed := tick;
        if sqrtPrice == tickPrice {
          landed := tickNext;
        }
        var index := FloorIndex(landed, tickSpacing);
        if !zeroForOne && TruncMod(landed, tickSpacing) == 0 {
          index := index - 1;
        }
        tickSpacingIdx := index;
        if dyn.value.accumulator != dyn.value.maxAccumulator {
          UpdateVolatilityAccumulator();
        }
      }
      tickSpacingIdx := if zeroForOne then tickSpacingIdx - 1 else tickSpacingIdx + 1;
    }

    /** One iteration of the walk to a boundary. */
    method Iterate(b: Boundary, tickPrice: nat, target: nat, unfilled: nat,
                   liquidityNext: nat, zeroForOne: bool, feeOnInput: bool)
      returns (err: Option<Error>, left: nat, crossed: nat)
      requires Approaching(Inner(Model(), unfilled, liquidityNext), b, zeroForOne)
      requires tickPrice == RaydiumPrice(b.tickIndex) && target == ClampTarget(tickPrice, Limit(zeroForOne), zeroForOne)
      modifies this
      ensures match StepOnce(Inner(old(Model()), unfilled, liquidityNext), b, zeroForOne, feeOnInput)
              case Ok(n) => err.None? && Inner(Model(), left, crossed) == n
              case Err(e) => err == Some(e)
    {
      hide RaydiumPrice, MoveTo, Settle, AdvanceIndex, SpacingBoundedPrice, GroupEdge;
      ghost var i := Inner(Model(), unfilled, liquidityNext);
      TargetIsTick(b.tickIndex, zeroForOne);
      BoundBetween(i, b, zeroForOne);
      MoveSound(i.s.Charged(), StepBound(i, target, zeroForOne).price, StepRate(i), zeroForOne, feeOnInput);
      left, crossed := unfilled, liquidityNext;
      UpdateVolatilityAccumulator();
      var feeRate := TotalFeeRate(dyn, tickSpacing, baseFeeRate);
      var bound := BoundStep(target, zeroForOne);
      var next;
      err, next := Swap(bound.price, feeRate, zeroForOne, feeOnInput);
      if err.Some? {
        return;
      }
      SettleIgnoresStart(i, Moved(Model(), next), b, bound, feeRate, zeroForOne, feeOnInput);
      SettleKeepsShape(i, Moved(Model(), next), b, bound, feeRate, zeroForOne, feeOnInput);
      err, left, crossed := Arrive(next, b, bound, unfilled, liquidityNext, tickPrice, feeRate, zeroForOne, feeOnInput);
      if err.Some? {
        return;
      }
      sqrtPrice := next;
      UpdateDynamicFeeIndex(zeroForOne, bound.skipped, tickPrice, b.tickIndex);
    }

    /** The inner loop. */
    method WalkToBoundary(b: Boundary, zeroForOne: bool, feeOnInput: bool) returns (err: Option<Error>)
      requires Approaching(Inner(Model(), b.unfilled, liquidity), b, zeroForOne)
      modifies this
      ensures Yields(StepToBoundary(Inner(old(Model()), b.unfilled, old(liquidity)), b, zeroForOne, feeOnInput),
                     err, Model())
    {
      hide RaydiumPrice, Approaching, StepOnce, GroupsLeft;
      ghost var start := Inner(Model(), b.unfilled, liquidity);
      var tickPrice := RaydiumSqrtPriceFromTick(b.tickIndex);
      var target := ClampTarget(tickPrice, Limit(zeroForOne), zeroForOne);
      var unfilled, liquidityNext := b.unfilled, liquidity;
      while true
        invariant Approaching(Inner(Model(), unfilled, liquidityNext), b, zeroForOne)
        invariant StepToBoundary(Inner(Model(), unfilled, liquidityNext), b, zeroForOne, feeOnInput)
               == StepToBoundary(start, b, zeroForOne, feeOnInput)
        decreases GroupsLeft(Model(), zeroForOne)
      {
        StepOnceSound(Inner(Model(), unfilled, liquidityNext), b, zeroForOne, feeOnInput);
        err, unfilled, liquidityNext := Iterate(b, tickPrice, target, unfilled, liquidityNext, zeroForOne, feeOnInput);
        if err.Some? {
          return;
        }
        if amountRemaining == 0 || sqrtPrice == target {
          break;
        }
      }
      liquidity := liquidityNext;
    }
  }

  lemma SettleIgnoresStart(i: Inner, moved: Moved, b: Boundary, bound: Bound, feeRate: nat,
                           zeroForOne: bool, feeOnInput: bool)
    requires MIN_SQRT_PRICE <= moved.next && feeRate < FEE_DENOMINATOR
    ensures Settle(i, moved, b, bound, feeRate, zeroForOne, feeOnInput)
         == Settle(i.(s := moved.s), moved, b, bound, feeRate, zeroForOne, feeOnInput)
  {
    hide RaydiumPrice, MatchLimitOrders, LandedTick;
  }

  /** The quote: walk stop after stop until the input is spent or nothing further is known. */
  method QuoteExactInDetailed(pool: Pool, zeroForOne: bool, amountIn: nat, ticks: TickProvider)
    returns (quote: Result<QuoteResult, Error>)
    requires pool.Consistent() && Honours(ticks, zeroForOne) && amountIn <= U64MAX
    ensures quote == QuoteExactIn(pool, zeroForOne, amountIn, ticks)
  {
    hide RaydiumPrice, StepToBoundary, TicksLeft, Positioned, NewState, WithinSpot;
    if pool.sqrtPrice.None? || pool.liquidity.None? {
      return Err(InvalidPool);
    }
    if pool.SwapDisabled() {
      return Err(Error.SwapDisabled);
    }
    var state := new SwapState(pool, amountIn);
    var feeOnInput := pool.IsFeeOnInput(zeroForOne);
    ghost var start := state.Model();
    NewStatePositioned(pool, amountIn, zeroForOne);
    RunSound(start, zeroForOne, feeOnInput, ticks);
    var limit := if zeroForOne then MIN_SQRT_PRICE else RAYDIUM_MAX_SQRT_PRICE;
    while state.amountRemaining > 0 && state.sqrtPrice != limit
      invariant Positioned(state.Model(), zeroForOne) && state.amountRemaining <= amountIn
      invariant Run(state.Model(), zeroForOne, feeOnInput, ticks) == Run(start, zeroForOne, feeOnInput, ticks)
      decreases state.amountRemaining > 0, TicksLeft(state.Model(), zeroForOne)
    {
      var stop := ticks(state.tick, zeroForOne);
      if stop.None? {
        break;
      }
      var b := stop.value;
      AtBoundary(state.Model(), b, zeroForOne);
      StepToBoundarySound(Inner(state.Model(), b.unfilled, state.liquidity), b, zeroForOne, feeOnInput);
      OuterMeasure(state.Model(), b, zeroForOne, feeOnInput);
      var err := state.WalkToBoundary(b, zeroForOne, feeOnInput);
      if err.Some? {
        return Err(err.value);
      }
    }
    quote := Ok(QuoteResult(state.amountOut, amountIn - state.amountRemaining));
  }

  /** A walk that leaves input over has moved the tick past the boundary. */
  lemma OuterMeasure(s: State, b: Boundary, zeroForOne: bool, feeOnInput: bool)
    requires Positioned(s, zeroForOne) && StopFrom(s.tick, b, zeroForOne)
    requires Approaching(Inner(s, b.unfilled, s.liquidity), b, zeroForOne)
    ensures var walked := StepToBoundary(Inner(s, b.unfilled, s.liquidity), b, zeroForOne, feeOnInput);
            walked.Ok? ==> walked.value.remaining == 0 || TicksLeft(walked.value, zeroForOne) < TicksLeft(s, zeroForOne)
  {
    hide RaydiumPrice, StepToBoundary, WithinSpot;
    StepToBoundarySound(Inner(s, b.unfilled, s.liquidity), b, zeroForOne, feeOnInput);
  }
}
