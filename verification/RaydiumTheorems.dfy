/** What every Raydium run guarantees: the price only moves forward and never passes its limit, the
    whole trade is no better than the starting spot price, stops are visited once each in order, and a
    larger input never buys less. */
module RaydiumTheorems {
  import opened Rounding
  import opened Wrappers
  import opened TickTables
  import opened TickMath
  import opened RaydiumMath
  import opened RaydiumRun

  // ---- safety over the whole run ----

  /** For every provider honouring its contract: the run ends with the input spent, the limit reached
      or no stop known; the price moved only in the swap direction, within the limit; and all it paid
      out, limit-order fills and fees included, is within the spot price it started from. */
  lemma {:induction false} RunSound(s: State, zeroForOne: bool, feeOnInput: bool, ticks: TickProvider)
    requires Positioned(s, zeroForOne) && Honours(ticks, zeroForOne)
    ensures var end := Run(s, zeroForOne, feeOnInput, ticks);
            end.Ok? ==>
              var n := end.value;
              && Positioned(n, zeroForOne)
              && Ahead(s.sqrtPrice, n.sqrtPrice, zeroForOne) && Ahead(n.sqrtPrice, Limit(zeroForOne), zeroForOne)
              && n.remaining <= s.remaining && s.out <= n.out
              && WithinSpot(n.out - s.out, s.remaining - n.remaining, s.sqrtPrice, zeroForOne)
              && (n.remaining == 0 || n.sqrtPrice == Limit(zeroForOne) || ticks(n.tick, zeroForOne).None?)
    decreases s.remaining > 0, TicksLeft(s, zeroForOne)
  {
    hide StepToBoundary, RaydiumPrice, WithinSpot;
    if s.remaining == 0 || s.sqrtPrice == Limit(zeroForOne) || ticks(s.tick, zeroForOne).None? {
      SpotOfNothing(s.sqrtPrice, zeroForOne);
    } else {
      var b := ticks(s.tick, zeroForOne).value;
      AtBoundary(s, b, zeroForOne);
      var next := StepToBoundary(Inner(s, b.unfilled, s.liquidity), b, zeroForOne, feeOnInput);
      StepToBoundarySound(Inner(s, b.unfilled, s.liquidity), b, zeroForOne, feeOnInput);
      if next.Ok? {
        var n := next.value;
        RunSound(n, zeroForOne, feeOnInput, ticks);
        var end := Run(n, zeroForOne, feeOnInput, ticks);
        if end.Ok? {
          SpotWorsens(end.value.out - n.out, n.remaining - end.value.remaining, s.sqrtPrice, n.sqrtPrice, zeroForOne);
          SpotAdds(n.out - s.out, s.remaining - n.remaining, end.value.out - n.out, n.remaining - end.value.remaining,
                   s.sqrtPrice, zeroForOne);
        }
      }
    }
  }

  // ---- stops ----

  /** The ticks a run walks to, in order. */
  function Stops(s: State, zeroForOne: bool, feeOnInput: bool, ticks: TickProvider): seq<int>
    requires Positioned(s, zeroForOne) && Honours(ticks, zeroForOne)
    decreases s.remaining > 0, TicksLeft(s, zeroForOne)
  {
    hide Positioned, StepToBoundary, RaydiumPrice;
    if s.remaining == 0 || s.sqrtPrice == Limit(zeroForOne) then []
    else
      match ticks(s.tick, zeroForOne)
      case None => []
      case Some(b) =>
        AtBoundary(s, b, zeroForOne);
        var next := StepToBoundary(Inner(s, b.unfilled, s.liquidity), b, zeroForOne, feeOnInput);
        StepToBoundarySound(Inner(s, b.unfilled, s.liquidity), b, zeroForOne, feeOnInput);
        [b.tickIndex] + if next.Err? then [] else Stops(next.value, zeroForOne, feeOnInput, ticks)
  }

  predicate Past(t: int, u: int, zeroForOne: bool) {
    if zeroForOne then u < t else t < u
  }

  /** The walk to a boundary matches and crosses it at most once (StepGuarantee), and no run comes back
      to a tick: each stop lies strictly past the one before. */
  lemma {:induction false} StopsAdvance(s: State, zeroForOne: bool, feeOnInput: bool, ticks: TickProvider)
    requires Positioned(s, zeroForOne) && Honours(ticks, zeroForOne)
    ensures var stops := Stops(s, zeroForOne, feeOnInput, ticks);
            && (stops != [] ==> if zeroForOne then stops[0] <= s.tick else s.tick < stops[0])
            && forall k :: 0 < k < |stops| ==> Past(stops[k - 1], stops[k], zeroForOne)
    decreases s.remaining > 0, TicksLeft(s, zeroForOne)
  {
    hide StepToBoundary, RaydiumPrice;
    if s.remaining > 0 && s.sqrtPrice != Limit(zeroForOne) && ticks(s.tick, zeroForOne).Some? {
      var b := ticks(s.tick, zeroForOne).value;
      AtBoundary(s, b, zeroForOne);
      var next := StepToBoundary(Inner(s, b.unfilled, s.liquidity), b, zeroForOne, feeOnInput);
      StepToBoundarySound(Inner(s, b.unfilled, s.liquidity), b, zeroForOne, feeOnInput);
      if next.Ok? {
        StopsAdvance(next.value, zeroForOne, feeOnInput, ticks);
      }
    }
  }

  // ---- how a run can fail ----

  /** What an iteration can fail on: an output past a u64 by the time the boundary is reached and its orders
      filled, or a net that takes the liquidity below zero. Never on the input. */
  predicate Fault(i: Inner, b: Boundary, zeroForOne: bool, e: Error)
    requires i.s.sqrtPrice > 0 && RaydiumPrice(b.tickIndex) > 0
  {
    || (e == AmountOverflow
        && i.s.out + i.unfilled
        + OutputDelta(i.s.sqrtPrice, RaydiumPrice(b.tickIndex), i.s.liquidity, zeroForOne) > U64MAX)
    || (e == NegativeLiquidity && LiquidityPast(i.liquidityNext, b, zeroForOne) < 0)
  }

  lemma MoveFault(s: State, bounded: nat, feeRate: nat, zeroForOne: bool, feeOnInput: bool)
    requires s.sqrtPrice > 0 && bounded > 0 && feeRate < FEE_DENOMINATOR
    requires s.remaining <= U64MAX && s.out <= U64MAX && Ahead(s.sqrtPrice, bounded, zeroForOne)
    ensures var moved, most := MoveTo(s, bounded, feeRate, zeroForOne, feeOnInput),
                               OutputDelta(s.sqrtPrice, bounded, s.liquidity, zeroForOne);
            match moved
            case Ok(m) => m.s.out <= s.out + most
            case Err(e) => e == AmountOverflow && s.out + most > U64MAX
  {
    hide ComputeSwapStep, InputDelta, OutputDelta, WithinSpot;
    MoveSound(s, bounded, feeRate, zeroForOne, feeOnInput);
    if s.sqrtPrice != bounded {
      StepSound(s.sqrtPrice, bounded, s.liquidity, s.remaining, feeRate, zeroForOne, feeOnInput);
      var next := ComputeSwapStep(s.sqrtPrice, bounded, s.liquidity, s.remaining, feeRate, zeroForOne, feeOnInput).next;
      OutputMono(s.sqrtPrice, next, bounded, s.liquidity, zeroForOne);
    }
  }

  lemma SettleFault(i: Inner, moved: Moved, b: Boundary, bound: Bound, feeRate: nat, zeroForOne: bool, feeOnInput: bool)
    requires MIN_SQRT_PRICE <= moved.next && feeRate < FEE_DENOMINATOR
    requires moved.s.remaining <= U64MAX && moved.s.out <= U64MAX && i.unfilled <= U64MAX
    ensures match Settle(i, moved, b, bound, feeRate, zeroForOne, feeOnInput)
            case Ok(_) => true
            case Err(e) =>
              && moved.next == RaydiumPrice(b.tickIndex)
              && ((e == AmountOverflow && moved.s.out + i.unfilled > U64MAX)
                  || (e == NegativeLiquidity && LiquidityPast(i.liquidityNext, b, zeroForOne) < 0))
  {
    hide RaydiumPrice, MatchLimitOrders, LandedTick, WithinSpot;
    if moved.next == RaydiumPrice(b.tickIndex) {
      SquareMono(MIN_SQRT_PRICE, moved.next);
      MatchSound(moved.s, i.unfilled, moved.next, feeRate, zeroForOne, feeOnInput);
    }
  }

  lemma StepFault(i: Inner, b: Boundary, zeroForOne: bool, feeOnInput: bool)
    requires Approaching(i, b, zeroForOne)
    ensures RaydiumPrice(b.tickIndex) > 0
    ensures var next := StepOnce(i, b, zeroForOne, feeOnInput);
            next.Err? ==> Fault(i, b, zeroForOne, next.error)
  {
    hide RaydiumPrice, MoveTo, Settle, AdvanceIndex, WithinSpot, StepBound, OutputDelta;
    TargetIsTick(b.tickIndex, zeroForOne);
    BoundBetween(i, b, zeroForOne);
    var tickPrice := RaydiumPrice(b.tickIndex);
    var bound, rate, s := StepBound(i, tickPrice, zeroForOne), StepRate(i), i.s.Charged();
    MoveSound(s, bound.price, rate, zeroForOne, feeOnInput);
    MoveFault(s, bound.price, rate, zeroForOne, feeOnInput);
    OutputMono(s.sqrtPrice, bound.price, tickPrice, s.liquidity, zeroForOne);
    var moved := MoveTo(s, bound.price, rate, zeroForOne, feeOnInput);
    if moved.Ok? {
      SettleFault(i, moved.value, b, bound, rate, zeroForOne, feeOnInput);
    }
  }

  /** An iteration the walk from i gets to. */
  ghost predicate WalkReaches(i: Inner, at: Inner, b: Boundary, zeroForOne: bool, feeOnInput: bool)
    requires Approaching(i, b, zeroForOne)
    decreases GroupsLeft(i.s, zeroForOne)
  {
    hide Approaching, StepOnce, Done, GroupsLeft, RaydiumPrice;
    StepOnceSound(i, b, zeroForOne, feeOnInput);
    || at == i
    || (var next := StepOnce(i, b, zeroForOne, feeOnInput);
        next.Ok? && !Done(next.value, b, zeroForOne) && WalkReaches(next.value, at, b, zeroForOne, feeOnInput))
  }

  lemma {:induction false} WalkFault(i: Inner, b: Boundary, zeroForOne: bool, feeOnInput: bool) returns (at: Inner)
    requires Approaching(i, b, zeroForOne)
    requires StepToBoundary(i, b, zeroForOne, feeOnInput).Err?
    ensures Approaching(at, b, zeroForOne) && WalkReaches(i, at, b, zeroForOne, feeOnInput)
            && RaydiumPrice(b.tickIndex) > 0
    ensures Fault(at, b, zeroForOne, StepToBoundary(i, b, zeroForOne, feeOnInput).error)
    decreases GroupsLeft(i.s, zeroForOne)
  {
    hide StepOnce, RaydiumPrice, WithinSpot, GroupsLeft, Fault, OutputDelta;
    StepFault(i, b, zeroForOne, feeOnInput);
    StepOnceSound(i, b, zeroForOne, feeOnInput);
    var next := StepOnce(i, b, zeroForOne, feeOnInput);
    if next.Err? {
      at := i;
    } else {
      at := WalkFault(next.value, b, zeroForOne, feeOnInput);
    }
  }

  /** An iteration toward some boundary that the run from s gets to. */
  ghost predicate RunReaches(s: State, at: Inner, b: Boundary, zeroForOne: bool, feeOnInput: bool, ticks: TickProvider)
    requires Positioned(s, zeroForOne) && Honours(ticks, zeroForOne)
    decreases s.remaining > 0, TicksLeft(s, zeroForOne)
  {
    hide Positioned, StepToBoundary, RaydiumPrice, WalkReaches;
    && s.remaining > 0 && s.sqrtPrice != Limit(zeroForOne) && ticks(s.tick, zeroForOne).Some?
    && var first := ticks(s.tick, zeroForOne).value;
    AtBoundary(s, first, zeroForOne);
    var inner := Inner(s, first.unfilled, s.liquidity);
    StepToBoundarySound(inner, first, zeroForOne, feeOnInput);
    || (b == first && WalkReaches(inner, at, first, zeroForOne, feeOnInput))
    || (var next := StepToBoundary(inner, first, zeroForOne, feeOnInput);
        next.Ok? && RunReaches(next.value, at, b, zeroForOne, feeOnInput, ticks))
  }

  /** A run fails only at an iteration it reaches, on an output past a u64 or a negative liquidity; never on
      the input, the price or the order book. */
  lemma {:induction false} RunFault(s: State, zeroForOne: bool, feeOnInput: bool, ticks: TickProvider)
    returns (at: Inner, b: Boundary)
    requires Positioned(s, zeroForOne) && Honours(ticks, zeroForOne)
    requires Run(s, zeroForOne, feeOnInput, ticks).Err?
    ensures Approaching(at, b, zeroForOne) && RaydiumPrice(b.tickIndex) > 0
    ensures RunReaches(s, at, b, zeroForOne, feeOnInput, ticks)
    ensures Fault(at, b, zeroForOne, Run(s, zeroForOne, feeOnInput, ticks).error)
    decreases s.remaining > 0, TicksLeft(s, zeroForOne)
  {
    hide Positioned, StepToBoundary, RaydiumPrice, WalkReaches, Fault, OutputDelta, WithinSpot;
    b := ticks(s.tick, zeroForOne).value;
    AtBoundary(s, b, zeroForOne);
    var inner := Inner(s, b.unfilled, s.liquidity);
    StepToBoundarySound(inner, b, zeroForOne, feeOnInput);
    var next := StepToBoundary(inner, b, zeroForOne, feeOnInput);
    if next.Err? {
      at := WalkFault(inner, b, zeroForOne, feeOnInput);
    } else {
      at, b := RunFault(next.value, zeroForOne, feeOnInput, ticks);
    }
  }

  // ---- a larger input never buys less ----

  /** Two runs that differ only in what is left of the input. */
  predicate Twin(s: State, t: State) {
    t == s.(remaining := t.remaining) && s.remaining <= t.remaining
  }

  /** From the twins s and t the two runs drew the same and are twins again. */
  predicate InStep(s: State, t: State, small: State, large: State) {
    Twin(small, large) && s.remaining - small.remaining == t.remaining - large.remaining
  }

  /** The smaller run has spent its input and paid out no more than the larger. */
  predicate Spent(s: State, t: State) {
    s.remaining == 0 && s.out <= t.out
  }

  /** The larger run drew at least what the smaller did. */
  predicate DrewNoLess(s: State, t: State, small: State, large: State) {
    s.remaining - small.remaining <= t.remaining - large.remaining
  }

  /** No stop has resting limit orders. */
  ghost predicate NoOrders(ticks: TickProvider, zeroForOne: bool) {
    forall t: int :: ticks(t, zeroForOne).Some? ==> ticks(t, zeroForOne).value.unfilled == 0
  }

  lemma MoveLockstep(s: State, t: State, bounded: nat, feeRate: nat, zeroForOne: bool, feeOnInput: bool)
    requires Twin(s, t) && s.sqrtPrice > 0 && bounded > 0 && feeRate < FEE_DENOMINATOR
    requires t.remaining <= U64MAX && s.out <= U64MAX && Ahead(s.sqrtPrice, bounded, zeroForOne)
    requires MoveTo(t, bounded, feeRate, zeroForOne, feeOnInput).Ok?
    ensures var small := MoveTo(s, bounded, feeRate, zeroForOne, feeOnInput);
            var large := MoveTo(t, bounded, feeRate, zeroForOne, feeOnInput).value;
            && small.Ok?
            && DrewNoLess(s, t, small.value.s, large.s)
            && (|| (small.value.next == large.next == bounded && InStep(s, t, small.value.s, large.s))
                || (small.value.next != bounded && Spent(small.value.s, large.s)))
  {
    hide ComputeSwapStep, WithinSpot;
    MoveSound(s, bounded, feeRate, zeroForOne, feeOnInput);
    MoveSound(t, bounded, feeRate, zeroForOne, feeOnInput);
    if s.sqrtPrice != bounded {
      StepSound(s.sqrtPrice, bounded, s.liquidity, s.remaining, feeRate, zeroForOne, feeOnInput);
      StepSound(s.sqrtPrice, bounded, s.liquidity, t.remaining, feeRate, zeroForOne, feeOnInput);
      StepLockstep(s.sqrtPrice, bounded, s.liquidity, s.remaining, t.remaining, feeRate, zeroForOne, feeOnInput);
    }
  }

  /** Against the same book, more input fills the same orders, or the smaller input was used up. */
  lemma FillLockstep(a: nat, b: nat, unfilled: nat, price: nat, feeRate: nat, zeroForOne: bool, feeOnInput: bool)
    requires a <= b && feeRate < FEE_DENOMINATOR && price > 0
    ensures var small := OrderFill(a, unfilled, price, feeRate, zeroForOne, feeOnInput);
            var large := OrderFill(b, unfilled, price, feeRate, zeroForOne, feeOnInput);
            || small == large
            || (small.amountIn + small.fee == a && small.amountOut <= large.amountOut)
  {
    hide LimitOrderOutput, LimitOrderInput;
    NetInputMono(a, b, feeRate, true);
    FeeOffGross(a, feeRate, FEE_DENOMINATOR);
    FeeOffGross(b, feeRate, FEE_DENOMINATOR);
    var netA: nat := if feeOnInput then a - FeeOn(a, feeRate) else a;
    var netB: nat := if feeOnInput then b - FeeOn(b, feeRate) else b;
    OrderAdjoint(LimitOrderOutput(netA, price, zeroForOne), netA, price, zeroForOne);
    OrderAdjoint(LimitOrderOutput(netA, price, zeroForOne), netB, price, zeroForOne);
  }

  /** What a fill draws from the input. */
  function Drawn(fill: Fill): int {
    fill.amountIn + fill.fee
  }

  /** The input that buys a whole book, its own fee included. */
  function BookCost(unfilled: nat, price: nat, feeRate: nat, zeroForOne: bool, feeOnInput: bool): nat
    requires feeRate < FEE_DENOMINATOR
  {
    var amountIn := LimitOrderInput(unfilled, price, !zeroForOne);
    amountIn + if feeOnInput then GrossUpFee(amountIn, feeRate) else 0
  }

  /** The smaller of two inputs exceeds the whole book's cost, yet for rounding may not buy more than the book,
      which the larger one does buy out. */
  predicate Dust(a: nat, b: nat, unfilled: nat, price: nat, feeRate: nat, zeroForOne: bool, feeOnInput: bool)
    requires feeRate < FEE_DENOMINATOR && price > 0
  {
    && BookCost(unfilled, price, feeRate, zeroForOne, feeOnInput) < a
    && LimitOrderOutput(NetInput(a, feeRate, feeOnInput), price, zeroForOne) <= unfilled
    && unfilled < LimitOrderOutput(NetInput(b, feeRate, feeOnInput), price, zeroForOne)
  }

  /** When more input draws no less from a book: always, except that dust draws everything while a larger
      input pays only the book's cost. */
  lemma FillDrawsNoLess(a: nat, b: nat, unfilled: nat, sqrtPrice: nat, feeRate: nat, zeroForOne: bool, feeOnInput: bool)
    requires a <= b && feeRate < FEE_DENOMINATOR && sqrtPrice * sqrtPrice >= Q64
    ensures var price := PriceFromSqrtPrice(sqrtPrice, !zeroForOne);
            && price > 0
            && var small := OrderFill(a, unfilled, price, feeRate, zeroForOne, feeOnInput);
            var large := OrderFill(b, unfilled, price, feeRate, zeroForOne, feeOnInput);
            var dust := Dust(a, b, unfilled, price, feeRate, zeroForOne, feeOnInput);
            && (Drawn(small) <= Drawn(large) <==> !dust)
            && (dust ==> Drawn(small) == a)
  {
    hide OrderFill, LimitOrderInput, LimitOrderOutput, NetInput, PriceFromSqrtPrice, GrossUpFee, WithinSpot;
    OrderPrice(sqrtPrice, zeroForOne);
    FillIsGreatest(a, unfilled, sqrtPrice, feeRate, zeroForOne, feeOnInput, 0);
    FillIsGreatest(b, unfilled, sqrtPrice, feeRate, zeroForOne, feeOnInput, 0);
    FillSound(a, unfilled, sqrtPrice, feeRate, zeroForOne, feeOnInput);
    FillSound(b, unfilled, sqrtPrice, feeRate, zeroForOne, feeOnInput);
  }

  lemma MatchLockstep(s: State, t: State, unfilled: nat, sqrtPrice: nat, feeRate: nat,
                      zeroForOne: bool, feeOnInput: bool)
    requires Twin(s, t) && feeRate < FEE_DENOMINATOR && sqrtPrice * sqrtPrice >= Q64
    requires t.remaining <= U64MAX && s.out <= U64MAX && unfilled <= U64MAX
    requires MatchLimitOrders(t, unfilled, sqrtPrice, feeRate, zeroForOne, feeOnInput).Ok?
    ensures var small := MatchLimitOrders(s, unfilled, sqrtPrice, feeRate, zeroForOne, feeOnInput);
            var large := MatchLimitOrders(t, unfilled, sqrtPrice, feeRate, zeroForOne, feeOnInput).value;
            && small.Ok?
            && large.unfilled <= small.value.unfilled
            && (unfilled == 0 ==> InStep(s, t, small.value.s, large.s))
            && (|| (InStep(s, t, small.value.s, large.s) && small.value.unfilled == large.unfilled)
                || Spent(small.value.s, large.s))
  {
    hide OrderFill, PriceFromSqrtPrice, WithinSpot, FeeOn;
    MatchSound(t, unfilled, sqrtPrice, feeRate, zeroForOne, feeOnInput);
    if s.remaining > 0 && unfilled > 0 {
      OrderPrice(sqrtPrice, zeroForOne);
      var price := PriceFromSqrtPrice(sqrtPrice, !zeroForOne);
      FillSound(s.remaining, unfilled, sqrtPrice, feeRate, zeroForOne, feeOnInput);
      FillSound(t.remaining, unfilled, sqrtPrice, feeRate, zeroForOne, feeOnInput);
      FillLockstep(s.remaining, t.remaining, unfilled, price, feeRate, zeroForOne, feeOnInput);
      var small := OrderFill(s.remaining, unfilled, price, feeRate, zeroForOne, feeOnInput);
      var large := OrderFill(t.remaining, unfilled, price, feeRate, zeroForOne, feeOnInput);
      NetOutputMono(small.amountOut, large.amountOut, feeRate, feeOnInput);
    }
  }

  lemma SettleLockstep(i: Inner, j: Inner, mi: Moved, mj: Moved, b: Boundary, bound: Bound, feeRate: nat,
                       zeroForOne: bool, feeOnInput: bool)
    requires i.unfilled == j.unfilled <= U64MAX && i.liquidityNext == j.liquidityNext
    requires Twin(mi.s, mj.s) && mi.next == mj.next && InRange(b.tickIndex) && feeRate < FEE_DENOMINATOR
    requires MIN_SQRT_PRICE <= mi.next && mj.s.remaining <= U64MAX && mi.s.out <= U64MAX
    requires Settle(j, mj, b, bound, feeRate, zeroForOne, feeOnInput).Ok?
    ensures var small := Settle(i, mi, b, bound, feeRate, zeroForOne, feeOnInput);
            var large := Settle(j, mj, b, bound, feeRate, zeroForOne, feeOnInput).value;
            && small.Ok?
            && (i.unfilled == 0 ==> DrewNoLess(mi.s, mj.s, small.value.s, large.s))
            && ((TwinInner(small.value, large) && InStep(mi.s, mj.s, small.value.s, large.s))
                || Spent(small.value.s, large.s))
  {
    hide RaydiumPrice, MatchLimitOrders, LandedTick;
    if RaydiumPrice(b.tickIndex) == mi.next {
      SquareMono(MIN_SQRT_PRICE, mi.next);
      MatchLockstep(mi.s, mj.s, i.unfilled, mi.next, feeRate, zeroForOne, feeOnInput);
    }
  }

  predicate TwinInner(i: Inner, j: Inner) {
    Twin(i.s, j.s) && i.unfilled == j.unfilled && i.liquidityNext == j.liquidityNext
  }

  /** A step that stopped short of its bound settles without trading further. */
  lemma SettleShort(i: Inner, moved: Moved, b: Boundary, bound: Bound, feeRate: nat, zeroForOne: bool, feeOnInput: bool)
    requires MIN_SQRT_PRICE <= moved.next && feeRate < FEE_DENOMINATOR
    requires Ahead(moved.next, bound.price, zeroForOne) && moved.next != bound.price
    requires Ahead(bound.price, RaydiumPrice(b.tickIndex), zeroForOne)
    ensures var settled := Settle(i, moved, b, bound, feeRate, zeroForOne, feeOnInput);
            settled.Ok? && settled.value.s.remaining == moved.s.remaining && settled.value.s.out == moved.s.out
  {
    hide RaydiumPrice, LandedTick;
  }

  lemma AdvanceIgnoresInput(s: State, remaining: nat, zeroForOne: bool, skipped: bool, tickPrice: nat, tickNext: int)
    requires s.dyn.Some? ==> s.tickSpacing > 0
    ensures AdvanceIndex(s.(remaining := remaining), zeroForOne, skipped, tickPrice, tickNext)
         == AdvanceIndex(s, zeroForOne, skipped, tickPrice, tickNext).(remaining := remaining)
    ensures AdvanceIndex(s, zeroForOne, skipped, tickPrice, tickNext).remaining == s.remaining
    ensures AdvanceIndex(s, zeroForOne, skipped, tickPrice, tickNext).out == s.out
  {
  }

  lemma TwinsStepAlike(i: Inner, j: Inner, target: nat, zeroForOne: bool)
    requires TwinInner(i, j) && i.s.baseFeeRate < FEE_DENOMINATOR
    ensures StepBound(i, target, zeroForOne) == StepBound(j, target, zeroForOne)
    ensures StepRate(i) == StepRate(j)
    ensures Twin(i.s.Charged(), j.s.Charged())
  {
    hide RaydiumPrice;
    assert GroupEdge(i.s.Charged(), zeroForOne) == GroupEdge(j.s.Charged(), zeroForOne);
  }

  /** The two runs agree on everything an iteration decides by, and stay twins until the smaller one
      has spent its input. */
  lemma StepOnceLockstep(i: Inner, j: Inner, b: Boundary, zeroForOne: bool, feeOnInput: bool)
    requires TwinInner(i, j) && Approaching(i, b, zeroForOne) && Approaching(j, b, zeroForOne)
    requires StepOnce(j, b, zeroForOne, feeOnInput).Ok?
    ensures var small := StepOnce(i, b, zeroForOne, feeOnInput);
            var large := StepOnce(j, b, zeroForOne, feeOnInput).value;
            && small.Ok?
            && (i.unfilled == 0 ==> DrewNoLess(i.s, j.s, small.value.s, large.s))
            && ((TwinInner(small.value, large) && InStep(i.s, j.s, small.value.s, large.s))
                || Spent(small.value.s, large.s))
  {
    hide RaydiumPrice, MoveTo, Settle, AdvanceIndex, WithinSpot, StepBound;
    var tickPrice := RaydiumPrice(b.tickIndex);
    TargetIsTick(b.tickIndex, zeroForOne);
    BoundBetween(i, b, zeroForOne);
    var bound := StepBound(i, tickPrice, zeroForOne);
    TwinsStepAlike(i, j, tickPrice, zeroForOne);
    var rate := StepRate(i);
    var s, t := i.s.Charged(), j.s.Charged();
    MoveSound(s, bound.price, rate, zeroForOne, feeOnInput);
    MoveSound(t, bound.price, rate, zeroForOne, feeOnInput);
    MoveLockstep(s, t, bound.price, rate, zeroForOne, feeOnInput);
    var mi := MoveTo(s, bound.price, rate, zeroForOne, feeOnInput).value;
    var mj := MoveTo(t, bound.price, rate, zeroForOne, feeOnInput).value;
    SettleKeepsShape(i, mi, b, bound, rate, zeroForOne, feeOnInput);
    SettleKeepsShape(j, mj, b, bound, rate, zeroForOne, feeOnInput);
    if mi.next == bound.price {
      SettleLockstep(i, j, mi, mj, b, bound, rate, zeroForOne, feeOnInput);
    } else {
      SettleShort(i, mi, b, bound, rate, zeroForOne, feeOnInput);
      SettleSound(j, mj, b, bound, rate, zeroForOne, feeOnInput);
    }
    var ni := Settle(i, mi, b, bound, rate, zeroForOne, feeOnInput).value.s;
    var nj := Settle(j, mj, b, bound, rate, zeroForOne, feeOnInput).value.s;
    AdvanceIgnoresInput(ni.(sqrtPrice := mi.next), nj.remaining, zeroForOne, bound.skipped, tickPrice, b.tickIndex);
    AdvanceIgnoresInput(nj.(sqrtPrice := mj.next), nj.remaining, zeroForOne, bound.skipped, tickPrice, b.tickIndex);
  }

  lemma {:induction false} WalkLockstep(i: Inner, j: Inner, b: Boundary, zeroForOne: bool, feeOnInput: bool)
    requires TwinInner(i, j) && Approaching(i, b, zeroForOne) && Approaching(j, b, zeroForOne)
    requires StepToBoundary(j, b, zeroForOne, feeOnInput).Ok?
    ensures var small := StepToBoundary(i, b, zeroForOne, feeOnInput);
            var large := StepToBoundary(j, b, zeroForOne, feeOnInput).value;
            && small.Ok?
            && (i.unfilled == 0 ==> DrewNoLess(i.s, j.s, small.value, large))
            && (InStep(i.s, j.s, small.value, large) || Spent(small.value, large))
    decreases GroupsLeft(i.s, zeroForOne)
  {
    hide StepOnce, RaydiumPrice, WithinSpot, GroupsLeft;
    StepOnceLockstep(i, j, b, zeroForOne, feeOnInput);
    StepOnceSound(i, b, zeroForOne, feeOnInput);
    StepOnceSound(j, b, zeroForOne, feeOnInput);
    var ni, nj := StepOnce(i, b, zeroForOne, feeOnInput).value, StepOnce(j, b, zeroForOne, feeOnInput).value;
    if !Done(nj, b, zeroForOne) {
      StepToBoundarySound(nj, b, zeroForOne, feeOnInput);
      if !Done(ni, b, zeroForOne) {
        WalkLockstep(ni, nj, b, zeroForOne, feeOnInput);
      }
    }
  }

  /** Whole-run monotonicity, limit orders, fee-on-output and dynamic fee included: if the larger input
      can be quoted so can the smaller, and it buys no more. They draw the same, or the smaller is spent. */
  lemma {:induction false} RunMonotone(s: State, t: State, zeroForOne: bool, feeOnInput: bool, ticks: TickProvider)
    requires Twin(s, t) && Positioned(s, zeroForOne) && Positioned(t, zeroForOne) && Honours(ticks, zeroForOne)
    requires Run(t, zeroForOne, feeOnInput, ticks).Ok?
    ensures Run(s, zeroForOne, feeOnInput, ticks).Ok?
    ensures var small, large := Run(s, zeroForOne, feeOnInput, ticks).value,
                                Run(t, zeroForOne, feeOnInput, ticks).value;
            && small.out <= large.out
            && (InStep(s, t, small, large) || Spent(small, large))
            && (NoOrders(ticks, zeroForOne) ==> DrewNoLess(s, t, small, large))
    decreases t.remaining > 0, TicksLeft(t, zeroForOne)
  {
    hide StepToBoundary, RaydiumPrice, WithinSpot;
    RunSound(t, zeroForOne, feeOnInput, ticks);
    if s.remaining > 0 && s.sqrtPrice != Limit(zeroForOne) && ticks(s.tick, zeroForOne).Some? {
      var b := ticks(s.tick, zeroForOne).value;
      AtBoundary(s, b, zeroForOne);
      AtBoundary(t, b, zeroForOne);
      var i, j := Inner(s, b.unfilled, s.liquidity), Inner(t, b.unfilled, t.liquidity);
      WalkLockstep(i, j, b, zeroForOne, feeOnInput);
      StepToBoundarySound(i, b, zeroForOne, feeOnInput);
      StepToBoundarySound(j, b, zeroForOne, feeOnInput);
      var small := StepToBoundary(i, b, zeroForOne, feeOnInput).value;
      var large := StepToBoundary(j, b, zeroForOne, feeOnInput).value;
      RunSound(large, zeroForOne, feeOnInput, ticks);
      if Twin(small, large) {
        RunMonotone(small, large, zeroForOne, feeOnInput, ticks);
      }
    }
  }

  // ---- when a larger input draws less ----

  lemma MatchDust(s: State, t: State, unfilled: nat, sqrtPrice: nat, feeRate: nat, zeroForOne: bool, feeOnInput: bool)
    requires Twin(s, t) && feeRate < FEE_DENOMINATOR && sqrtPrice * sqrtPrice >= Q64
    requires t.remaining <= U64MAX && s.out <= U64MAX && unfilled <= U64MAX
    requires MatchLimitOrders(t, unfilled, sqrtPrice, feeRate, zeroForOne, feeOnInput).Ok?
    ensures var price := PriceFromSqrtPrice(sqrtPrice, !zeroForOne);
            && price > 0
            && var small := MatchLimitOrders(s, unfilled, sqrtPrice, feeRate, zeroForOne, feeOnInput);
            var large := MatchLimitOrders(t, unfilled, sqrtPrice, feeRate, zeroForOne, feeOnInput).value;
            var dust := s.remaining > 0 && unfilled > 0
                        && Dust(s.remaining, t.remaining, unfilled, price, feeRate, zeroForOne, feeOnInput);
            && small.Ok?
            && (DrewNoLess(s, t, small.value.s, large.s) <==> !dust)
            && (dust ==> small.value.s.remaining == 0)
  {
    hide OrderFill, PriceFromSqrtPrice, WithinSpot, FeeOn, Dust;
    MatchLockstep(s, t, unfilled, sqrtPrice, feeRate, zeroForOne, feeOnInput);
    OrderPrice(sqrtPrice, zeroForOne);
    if s.remaining > 0 && unfilled > 0 {
      FillDrawsNoLess(s.remaining, t.remaining, unfilled, sqrtPrice, feeRate, zeroForOne, feeOnInput);
      FillSound(s.remaining, unfilled, sqrtPrice, feeRate, zeroForOne, feeOnInput);
      FillSound(t.remaining, unfilled, sqrtPrice, feeRate, zeroForOne, feeOnInput);
    }
  }

  /** An iteration that reaches its boundary with orders resting there, where what is left of the input is dust
      against `gap` more. */
  ghost predicate Dusty(at: Inner, gap: nat, b: Boundary, zeroForOne: bool, feeOnInput: bool) {
    Approaching(at, b, zeroForOne) && DustyStep(at, gap, b, zeroForOne, feeOnInput)
  }

  ghost predicate DustyStep(at: Inner, gap: nat, b: Boundary, zeroForOne: bool, feeOnInput: bool)
    requires Approaching(at, b, zeroForOne)
  {
    hide RaydiumPrice, MoveTo, StepBound;
    BoundBetween(at, b, zeroForOne);
    var tickPrice := RaydiumPrice(b.tickIndex);
    var price := PriceFromSqrtPrice(tickPrice, !zeroForOne);
    var moved :=
      MoveTo(at.s.Charged(), StepBound(at, tickPrice, zeroForOne).price, StepRate(at), zeroForOne, feeOnInput);
    && moved.Ok? && moved.value.next == tickPrice && price > 0
    && var left := moved.value.s.remaining;
    && left > 0 && at.unfilled > 0
    && Dust(left, left + gap, at.unfilled, price, StepRate(at), zeroForOne, feeOnInput)
  }

  lemma SettleDust(i: Inner, j: Inner, mi: Moved, mj: Moved, b: Boundary, bound: Bound, feeRate: nat,
                   zeroForOne: bool, feeOnInput: bool)
    requires i.unfilled == j.unfilled <= U64MAX && i.liquidityNext == j.liquidityNext
    requires Twin(mi.s, mj.s) && mi.next == mj.next && InRange(b.tickIndex) && feeRate < FEE_DENOMINATOR
    requires MIN_SQRT_PRICE <= mi.next && mj.s.remaining <= U64MAX && mi.s.out <= U64MAX
    requires Settle(j, mj, b, bound, feeRate, zeroForOne, feeOnInput).Ok?
    ensures var price := PriceFromSqrtPrice(mi.next, !zeroForOne);
            && price > 0
            && var small := Settle(i, mi, b, bound, feeRate, zeroForOne, feeOnInput);
            var large := Settle(j, mj, b, bound, feeRate, zeroForOne, feeOnInput).value;
            var dust := mi.next == RaydiumPrice(b.tickIndex) && mi.s.remaining > 0 && i.unfilled > 0
                        && Dust(mi.s.remaining, mj.s.remaining, i.unfilled, price, feeRate, zeroForOne, feeOnInput);
            && small.Ok?
            && (DrewNoLess(mi.s, mj.s, small.value.s, large.s) <==> !dust)
            && (dust ==> small.value.s.remaining == 0)
  {
    hide RaydiumPrice, MatchLimitOrders, LandedTick, PriceFromSqrtPrice, Dust;
    SettleLockstep(i, j, mi, mj, b, bound, feeRate, zeroForOne, feeOnInput);
    SquareMono(MIN_SQRT_PRICE, mi.next);
    OrderPrice(mi.next, zeroForOne);
    if RaydiumPrice(b.tickIndex) == mi.next {
      MatchDust(mi.s, mj.s, i.unfilled, mi.next, feeRate, zeroForOne, feeOnInput);
    }
  }

  /** In one iteration the larger input draws less exactly when it meets dust. */
  lemma StepDust(i: Inner, j: Inner, b: Boundary, zeroForOne: bool, feeOnInput: bool)
    requires TwinInner(i, j) && Approaching(i, b, zeroForOne) && Approaching(j, b, zeroForOne)
    requires StepOnce(j, b, zeroForOne, feeOnInput).Ok?
    ensures var small, large := StepOnce(i, b, zeroForOne, feeOnInput), StepOnce(j, b, zeroForOne, feeOnInput).value;
            var dust := Dusty(i, j.s.remaining - i.s.remaining, b, zeroForOne, feeOnInput);
            && small.Ok?
            && (DrewNoLess(i.s, j.s, small.value.s, large.s) <==> !dust)
            && (dust ==> small.value.s.remaining == 0)
  {
    hide RaydiumPrice, MoveTo, Settle, AdvanceIndex, WithinSpot, StepBound, Dust, PriceFromSqrtPrice;
    var tickPrice := RaydiumPrice(b.tickIndex);
    TargetIsTick(b.tickIndex, zeroForOne);
    BoundBetween(i, b, zeroForOne);
    var bound := StepBound(i, tickPrice, zeroForOne);
    TwinsStepAlike(i, j, tickPrice, zeroForOne);
    var rate := StepRate(i);
    var s, t := i.s.Charged(), j.s.Charged();
    MoveSound(s, bound.price, rate, zeroForOne, feeOnInput);
    MoveSound(t, bound.price, rate, zeroForOne, feeOnInput);
    MoveLockstep(s, t, bound.price, rate, zeroForOne, feeOnInput);
    var mi := MoveTo(s, bound.price, rate, zeroForOne, feeOnInput).value;
    var mj := MoveTo(t, bound.price, rate, zeroForOne, feeOnInput).value;
    SettleKeepsShape(i, mi, b, bound, rate, zeroForOne, feeOnInput);
    SettleKeepsShape(j, mj, b, bound, rate, zeroForOne, feeOnInput);
    if mi.next == bound.price {
      SettleDust(i, j, mi, mj, b, bound, rate, zeroForOne, feeOnInput);
    } else {
      SettleShort(i, mi, b, bound, rate, zeroForOne, feeOnInput);
      SettleSound(j, mj, b, bound, rate, zeroForOne, feeOnInput);
    }
    var ni := Settle(i, mi, b, bound, rate, zeroForOne, feeOnInput).value.s;
    var nj := Settle(j, mj, b, bound, rate, zeroForOne, feeOnInput).value.s;
    AdvanceIgnoresInput(ni.(sqrtPrice := mi.next), nj.remaining, zeroForOne, bound.skipped, tickPrice, b.tickIndex);
    AdvanceIgnoresInput(nj.(sqrtPrice := mj.next), nj.remaining, zeroForOne, bound.skipped, tickPrice, b.tickIndex);
  }

  /** If the larger input draws less on a walk, the smaller one meets dust on it. */
  lemma {:induction false} WalkDust(i: Inner, j: Inner, b: Boundary, zeroForOne: bool, feeOnInput: bool)
    returns (at: Inner)
    requires TwinInner(i, j) && Approaching(i, b, zeroForOne) && Approaching(j, b, zeroForOne)
    requires StepToBoundary(j, b, zeroForOne, feeOnInput).Ok?
    ensures var small, large := StepToBoundary(i, b, zeroForOne, feeOnInput),
                                StepToBoundary(j, b, zeroForOne, feeOnInput).value;
            && small.Ok?
            && (DrewNoLess(i.s, j.s, small.value, large)
                || (WalkReaches(i, at, b, zeroForOne, feeOnInput)
                    && Dusty(at, j.s.remaining - i.s.remaining, b, zeroForOne, feeOnInput)))
    decreases GroupsLeft(i.s, zeroForOne)
  {
    hide StepOnce, RaydiumPrice, WithinSpot, GroupsLeft, Dusty;
    StepOnceLockstep(i, j, b, zeroForOne, feeOnInput);
    StepDust(i, j, b, zeroForOne, feeOnInput);
    StepOnceSound(i, b, zeroForOne, feeOnInput);
    StepOnceSound(j, b, zeroForOne, feeOnInput);
    var ni, nj := StepOnce(i, b, zeroForOne, feeOnInput).value, StepOnce(j, b, zeroForOne, feeOnInput).value;
    at := i;
    if !Done(nj, b, zeroForOne) {
      StepToBoundarySound(nj, b, zeroForOne, feeOnInput);
      if !Done(ni, b, zeroForOne) {
        at := WalkDust(ni, nj, b, zeroForOne, feeOnInput);
      }
    }
  }

  /** The run from s meets dust against `gap` more of input. */
  ghost predicate MeetsDust(s: State, gap: nat, zeroForOne: bool, feeOnInput: bool, ticks: TickProvider)
    requires Positioned(s, zeroForOne) && Honours(ticks, zeroForOne)
  {
    exists at, b ::
      RunReaches(s, at, b, zeroForOne, feeOnInput, ticks) && Dusty(at, gap, b, zeroForOne, feeOnInput)
  }

  /** If the larger input draws less in all, the smaller one meets dust: so without dust on its way a run with
      more input never draws less. */
  lemma {:induction false} RunDust(s: State, t: State, zeroForOne: bool, feeOnInput: bool, ticks: TickProvider)
    requires Twin(s, t) && Positioned(s, zeroForOne) && Positioned(t, zeroForOne) && Honours(ticks, zeroForOne)
    requires Run(t, zeroForOne, feeOnInput, ticks).Ok?
    ensures Run(s, zeroForOne, feeOnInput, ticks).Ok?
    ensures var small, large := Run(s, zeroForOne, feeOnInput, ticks).value,
                                Run(t, zeroForOne, feeOnInput, ticks).value;
            DrewNoLess(s, t, small, large) || MeetsDust(s, t.remaining - s.remaining, zeroForOne, feeOnInput, ticks)
    decreases t.remaining > 0, TicksLeft(t, zeroForOne)
  {
    hide StepToBoundary, RaydiumPrice, WithinSpot, WalkReaches, Dusty;
    RunMonotone(s, t, zeroForOne, feeOnInput, ticks);
    RunSound(t, zeroForOne, feeOnInput, ticks);
    if s.remaining > 0 && s.sqrtPrice != Limit(zeroForOne) && ticks(s.tick, zeroForOne).Some? {
      var b := ticks(s.tick, zeroForOne).value;
      AtBoundary(s, b, zeroForOne);
      AtBoundary(t, b, zeroForOne);
      var i, j := Inner(s, b.unfilled, s.liquidity), Inner(t, b.unfilled, t.liquidity);
      WalkLockstep(i, j, b, zeroForOne, feeOnInput);
      var at := WalkDust(i, j, b, zeroForOne, feeOnInput);
      StepToBoundarySound(i, b, zeroForOne, feeOnInput);
      StepToBoundarySound(j, b, zeroForOne, feeOnInput);
      var small := StepToBoundary(i, b, zeroForOne, feeOnInput).value;
      var large := StepToBoundary(j, b, zeroForOne, feeOnInput).value;
      RunSound(large, zeroForOne, feeOnInput, ticks);
      var gap := t.remaining - s.remaining;
      if WalkReaches(i, at, b, zeroForOne, feeOnInput) && Dusty(at, gap, b, zeroForOne, feeOnInput) {
        assert RunReaches(s, at, b, zeroForOne, feeOnInput, ticks);
      } else if InStep(s, t, small, large) {
        RunDust(small, large, zeroForOne, feeOnInput, ticks);
        if MeetsDust(small, gap, zeroForOne, feeOnInput, ticks) {
          DustAfter(s, small, b, gap, zeroForOne, feeOnInput, ticks);
        }
      }
    }
  }

  /** Dust on the rest of a run is dust on the run. */
  lemma DustAfter(s: State, n: State, first: Boundary, gap: nat, zeroForOne: bool,
                  feeOnInput: bool, ticks: TickProvider)
    requires Positioned(s, zeroForOne) && Honours(ticks, zeroForOne) && Positioned(n, zeroForOne)
    requires s.remaining > 0 && s.sqrtPrice != Limit(zeroForOne) && ticks(s.tick, zeroForOne) == Some(first)
    requires Approaching(Inner(s, first.unfilled, s.liquidity), first, zeroForOne)
    requires StepToBoundary(Inner(s, first.unfilled, s.liquidity), first, zeroForOne, feeOnInput) == Ok(n)
    requires MeetsDust(n, gap, zeroForOne, feeOnInput, ticks)
    ensures MeetsDust(s, gap, zeroForOne, feeOnInput, ticks)
  {
    hide Positioned, StepToBoundary, RaydiumPrice, WalkReaches, Dusty;
    var at, b :| RunReaches(n, at, b, zeroForOne, feeOnInput, ticks) && Dusty(at, gap, b, zeroForOne, feeOnInput);
    assert RunReaches(s, at, b, zeroForOne, feeOnInput, ticks);
  }

  /** Dust is drawn in full. */
  lemma MatchSpends(s: State, unfilled: nat, sqrtPrice: nat, feeRate: nat, zeroForOne: bool, feeOnInput: bool)
    requires feeRate < FEE_DENOMINATOR && sqrtPrice * sqrtPrice >= Q64 && s.remaining > 0 && unfilled > 0
    requires var price := PriceFromSqrtPrice(sqrtPrice, !zeroForOne);
             && price > 0
             && LimitOrderOutput(NetInput(s.remaining, feeRate, feeOnInput), price, zeroForOne) <= unfilled
    ensures var matched := MatchLimitOrders(s, unfilled, sqrtPrice, feeRate, zeroForOne, feeOnInput);
            matched.Ok? ==> matched.value.s.remaining == 0
  {
    hide OrderFill, PriceFromSqrtPrice, WithinSpot, FeeOn, LimitOrderOutput, LimitOrderInput;
    FillIsGreatest(s.remaining, unfilled, sqrtPrice, feeRate, zeroForOne, feeOnInput, 0);
    FillSound(s.remaining, unfilled, sqrtPrice, feeRate, zeroForOne, feeOnInput);
  }

  lemma StepSpends(at: Inner, gap: nat, b: Boundary, zeroForOne: bool, feeOnInput: bool)
    requires Dusty(at, gap, b, zeroForOne, feeOnInput)
    ensures var next := StepOnce(at, b, zeroForOne, feeOnInput);
            next.Ok? ==> next.value.s.remaining == 0
  {
    hide RaydiumPrice, MoveTo, AdvanceIndex, WithinSpot, StepBound, PriceFromSqrtPrice, MatchLimitOrders,
      LimitOrderOutput, LimitOrderInput, GrossUpFee, NetInput;
    var tickPrice := RaydiumPrice(b.tickIndex);
    TargetIsTick(b.tickIndex, zeroForOne);
    BoundBetween(at, b, zeroForOne);
    var bound, rate := StepBound(at, tickPrice, zeroForOne), StepRate(at);
    MoveSound(at.s.Charged(), bound.price, rate, zeroForOne, feeOnInput);
    var moved := MoveTo(at.s.Charged(), bound.price, rate, zeroForOne, feeOnInput).value;
    SquareMono(MIN_SQRT_PRICE, tickPrice);
    MatchSpends(moved.s, at.unfilled, tickPrice, rate, zeroForOne, feeOnInput);
    var settled := Settle(at, moved, b, bound, rate, zeroForOne, feeOnInput);
    if settled.Ok? {
      SettleKeepsShape(at, moved, b, bound, rate, zeroForOne, feeOnInput);
      AdvanceIgnoresInput(settled.value.s.(sqrtPrice := moved.next), 0, zeroForOne,
                          bound.skipped, tickPrice, b.tickIndex);
    }
  }

  lemma {:induction false} WalkSpends(i: Inner, at: Inner, gap: nat, b: Boundary, zeroForOne: bool, feeOnInput: bool)
    requires Approaching(i, b, zeroForOne) && WalkReaches(i, at, b, zeroForOne, feeOnInput)
    requires Dusty(at, gap, b, zeroForOne, feeOnInput)
    ensures var walked := StepToBoundary(i, b, zeroForOne, feeOnInput);
            walked.Ok? ==> walked.value.remaining == 0
    decreases GroupsLeft(i.s, zeroForOne)
  {
    hide StepOnce, RaydiumPrice, WithinSpot, GroupsLeft, Dusty;
    StepOnceSound(i, b, zeroForOne, feeOnInput);
    if at == i {
      StepSpends(at, gap, b, zeroForOne, feeOnInput);
    } else {
      WalkSpends(StepOnce(i, b, zeroForOne, feeOnInput).value, at, gap, b, zeroForOne, feeOnInput);
    }
  }

  /** A run that meets dust spends its whole input. */
  lemma {:induction false} RunSpends(s: State, at: Inner, gap: nat, b: Boundary,
                                     zeroForOne: bool, feeOnInput: bool, ticks: TickProvider)
    requires Positioned(s, zeroForOne) && Honours(ticks, zeroForOne)
    requires RunReaches(s, at, b, zeroForOne, feeOnInput, ticks) && Dusty(at, gap, b, zeroForOne, feeOnInput)
    ensures var end := Run(s, zeroForOne, feeOnInput, ticks);
            end.Ok? ==> end.value.remaining == 0
    decreases s.remaining > 0, TicksLeft(s, zeroForOne)
  {
    hide Positioned, StepToBoundary, RaydiumPrice, WalkReaches, Dusty, WithinSpot;
    var first := ticks(s.tick, zeroForOne).value;
    AtBoundary(s, first, zeroForOne);
    var inner := Inner(s, first.unfilled, s.liquidity);
    StepToBoundarySound(inner, first, zeroForOne, feeOnInput);
    var next := StepToBoundary(inner, first, zeroForOne, feeOnInput);
    if b == first && WalkReaches(inner, at, first, zeroForOne, feeOnInput) {
      WalkSpends(inner, at, gap, b, zeroForOne, feeOnInput);
    } else {
      RunSpends(next.value, at, gap, b, zeroForOne, feeOnInput, ticks);
    }
  }
}
