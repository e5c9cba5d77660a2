/** One exact-in Orca swap as a run over its state. The functions are the specification of the methods
    in OrcaQuote; both loops are proved to terminate for every provider honouring its contract. */
module OrcaRun {
  import opened Rounding
  import opened Wrappers
  import opened MachineIntegers
  import opened TickTables
  import opened TickMath
  import opened OrcaMath
  import opened OrcaFee
  import R = RaydiumMath

  /** The next stop: an initialized tick, or an uninitialized edge of a tick array. */
  datatype Boundary = Boundary(tickIndex: int, liquidityNet: Option<int>, initialized: bool)

  type TickProvider = (int, bool) -> Option<Boundary>

  datatype State = State(remaining: nat, out: nat, sqrtPrice: nat, liquidity: nat, tick: int, fee: Fee)

  ghost predicate Honours(ticks: TickProvider, aToB: bool) {
    forall t: int :: ticks(t, aToB).Some? ==> StopFrom(t, ticks(t, aToB).value, aToB)
  }

  predicate StopFrom(fromTick: int, b: Boundary, aToB: bool) {
    InRange(b.tickIndex) && if aToB then b.tickIndex <= fromTick else fromTick < b.tickIndex
  }

  function Limit(aToB: bool): nat {
    if aToB then MIN_SQRT_PRICE else ORCA_MAX_SQRT_PRICE
  }

  function ClampTarget(tickPrice: nat, limit: nat, aToB: bool): nat {
    if aToB && tickPrice < limit then limit
    else if !aToB && tickPrice > limit then limit
    else tickPrice
  }

  function CrossLiquidity(liquidity: nat, net: Option<int>, aToB: bool): Result<nat, Error> {
    if net.None? then Ok(liquidity)
    else
      var crossed := if aToB then liquidity - net.value else liquidity + net.value;
      if crossed < 0 then Err(NegativeLiquidity) else Ok(crossed)
  }

  /** Booking a step; the subtraction order is the program's overdraw check. */
  function Book(s: State, step: SwapStep): Result<State, Error> {
    if step.amountIn > s.remaining || step.feeAmount > s.remaining - step.amountIn then Err(AmountOverflow)
    else if s.out + step.amountOut > U64MAX then Err(AmountOverflow)
    else Ok(s.(remaining := s.remaining - step.amountIn - step.feeAmount, out := s.out + step.amountOut))
  }

  /** Crossing the boundary when the step reached it, or landing the tick where the price stopped. */
  function Arrive(s: State, next: nat, b: Boundary, aToB: bool): Result<State, Error>
    requires MIN_SQRT_PRICE <= next
  {
    if next == OrcaPrice(b.tickIndex) then
      var liquidity :- if b.initialized then CrossLiquidity(s.liquidity, b.liquidityNet, aToB) else Ok(s.liquidity);
      Ok(s.(liquidity := liquidity, tick := if aToB then b.tickIndex - 1 else b.tickIndex))
    else if next != s.sqrtPrice then Ok(s.(tick := OrcaTickAt(next)))
    else Ok(s)
  }

  function Advance(fee: Fee, skip: bool, next: nat, b: Boundary): Fee
    requires fee.adaptive ==> fee.constants.groupSize > 0 && MIN_SQRT_PRICE <= next
  {
    if skip then fee.AdvanceAfterSkip(next, OrcaPrice(b.tickIndex), b.tickIndex) else fee.AdvanceGroup()
  }

  // ---- where a run stands ----

  ghost predicate Bracketed(tick: int, price: nat) {
    && MIN_TICK - 1 <= tick <= MAX_TICK
    && OrcaPrice(tick) <= price <= OrcaPrice(tick + 1)
    && MIN_SQRT_PRICE <= price <= ORCA_MAX_SQRT_PRICE
  }

  /** A tick group that meets the tick range. */
  predicate GroupInRange(group: int, groupSize: nat) {
    group * groupSize <= MAX_TICK && MIN_TICK - 1 < group * groupSize + groupSize
  }

  /** The core range as built at the start of the swap: its edges price the ends of its groups. */
  ghost predicate CoreWellFormed(f: Fee) {
    && (f.coreLower.Some? ==>
          var edge := f.coreLower.value.index * f.constants.groupSize;
          MIN_TICK < edge <= MAX_TICK && f.coreLower.value.sqrtPrice == OrcaPrice(edge))
    && (f.coreUpper.Some? ==>
          var edge := f.coreUpper.value.index * f.constants.groupSize + f.constants.groupSize;
          MIN_TICK - 1 < edge < MAX_TICK && f.coreUpper.value.sqrtPrice == OrcaPrice(edge))
  }

  ghost predicate FeePositioned(f: Fee, price: nat) {
    f.adaptive ==>
      && f.constants.groupSize > 0 && CoreWellFormed(f)
      && R.Ahead(price, OrcaPrice(f.GroupEdge()), f.aToB)
  }

  ghost predicate Positioned(s: State, aToB: bool) {
    && Bracketed(s.tick, s.sqrtPrice)
    && s.remaining <= U64MAX && s.out <= U64MAX
    && s.fee.staticRate < FEE_RATE_MUL
    && (s.fee.adaptive ==> s.fee.aToB == aToB)
    && FeePositioned(s.fee, s.sqrtPrice)
  }

  ghost predicate Approaching(s: State, b: Boundary, aToB: bool) {
    && Positioned(s, aToB)
    && InRange(b.tickIndex)
    && R.Ahead(s.sqrtPrice, OrcaPrice(b.tickIndex), aToB)
  }

  lemma PriceOrder(t: int, u: int)
    requires InSpan(t) && InSpan(u) && t <= u
    ensures OrcaPrice(t) <= OrcaPrice(u)
  {
    hide OrcaPrice;
    if t < u {
      OrcaPriceIncreasing(t, u);
    }
  }

  lemma TargetIsTick(tick: int, aToB: bool)
    requires InRange(tick)
    ensures MIN_SQRT_PRICE <= OrcaPrice(tick) <= ORCA_MAX_SQRT_PRICE
    ensures ClampTarget(OrcaPrice(tick), Limit(aToB), aToB) == OrcaPrice(tick)
  {
    hide OrcaPrice;
    OrcaPriceBounds();
    PriceOrder(MIN_TICK, tick);
    PriceOrder(tick, MAX_TICK);
  }

  /** The edge of the core range is ahead of the price while the group is outside the range. */
  lemma CoreEdgeAhead(f: Fee, price: nat)
    requires f.adaptive && FeePositioned(f, price) && MIN_SQRT_PRICE <= price <= ORCA_MAX_SQRT_PRICE
    ensures !f.aToB && f.coreLower.Some? && f.group < f.coreLower.value.index ==> price <= f.coreLower.value.sqrtPrice
    ensures f.aToB && f.coreUpper.Some? && f.group > f.coreUpper.value.index ==> f.coreUpper.value.sqrtPrice <= price
  {
    hide OrcaPrice;
    var size := f.constants.groupSize;
    if !f.aToB && f.coreLower.Some? && f.group < f.coreLower.value.index {
      Multiples(f.group + 1, f.coreLower.value.index, size);
      Distribute(size, f.group, 1);
      PriceOrder(f.GroupEdge(), f.coreLower.value.index * size);
    } else if f.aToB && f.coreUpper.Some? && f.group > f.coreUpper.value.index {
      Multiples(f.coreUpper.value.index + 1, f.group, size);
      Distribute(size, f.coreUpper.value.index, 1);
      PriceOrder(f.coreUpper.value.index * size + size, f.GroupEdge());
    }
  }

  /** A step's bound lies between the price and the boundary. */
  lemma BoundBetween(s: State, b: Boundary, aToB: bool)
    requires Approaching(s, b, aToB)
    ensures var target := OrcaPrice(b.tickIndex);
            var bounded := s.fee.Charged().BoundedTarget(target, s.liquidity).0;
            && R.Ahead(s.sqrtPrice, bounded, aToB) && R.Ahead(bounded, target, aToB)
            && MIN_SQRT_PRICE <= bounded <= ORCA_MAX_SQRT_PRICE
  {
    hide OrcaPrice;
    TargetIsTick(b.tickIndex, aToB);
    if s.fee.adaptive {
      TargetIsTick(s.fee.GroupEdge(), aToB);
      CoreEdgeAhead(s.fee, s.sqrtPrice);
    }
  }

  // ---- keeping the position ----

  /** A step never overdraws, stops between its start and its bound, spends everything when it stops
      short, and trades within the spot price. */
  lemma StepSound(s: State, bounded: nat, feeRate: nat, aToB: bool)
    requires s.sqrtPrice > 0 && bounded > 0 && feeRate < FEE_RATE_MUL && s.remaining <= U64MAX
    requires R.Ahead(s.sqrtPrice, bounded, aToB)
    ensures var step := ComputeSwapStep(s.remaining, feeRate, s.liquidity, s.sqrtPrice, bounded, aToB);
            step.Ok? ==>
              var st := step.value;
              && st.amountIn + st.feeAmount <= s.remaining
              && R.Ahead(s.sqrtPrice, st.nextPrice, aToB) && R.Ahead(st.nextPrice, bounded, aToB) && st.nextPrice > 0
              && (st.nextPrice != bounded ==> st.amountIn + st.feeAmount == s.remaining)
              && R.WithinSpot(st.amountOut, st.amountIn + st.feeAmount, s.sqrtPrice, aToB)
  {
    hide ComputeSwapStep, R.ComputeSwapStep, R.InputDelta, R.OutputDelta, R.WithinSpot;
    StepsAgree(s.remaining, feeRate, s.liquidity, s.sqrtPrice, bounded, aToB);
    R.StepSound(s.sqrtPrice, bounded, s.liquidity, s.remaining, feeRate, aToB, true);
    var step := R.ComputeSwapStep(s.sqrtPrice, bounded, s.liquidity, s.remaining, feeRate, aToB, true);
    R.CurveWithinSpot(s.sqrtPrice, step.next, s.liquidity, aToB, step.amountOut, step.Consumed(true));
  }

  lemma ArriveSound(s: State, next: nat, b: Boundary, aToB: bool)
    requires InRange(b.tickIndex) && Bracketed(s.tick, s.sqrtPrice)
    requires MIN_SQRT_PRICE <= next <= ORCA_MAX_SQRT_PRICE
    ensures var arrived := Arrive(s, next, b, aToB);
            arrived.Ok? ==>
              && arrived.value == s.(liquidity := arrived.value.liquidity, tick := arrived.value.tick)
              && Bracketed(arrived.value.tick, next)
              && (next == OrcaPrice(b.tickIndex) ==>
                    arrived.value.tick == if aToB then b.tickIndex - 1 else b.tickIndex)
              && (next != OrcaPrice(b.tickIndex) ==> arrived.value.liquidity == s.liquidity)
  {
    hide OrcaPrice;
    OrcaPriceBounds();
    if next == OrcaPrice(b.tickIndex) {
      PriceOrder(b.tickIndex - 1, b.tickIndex);
      PriceOrder(b.tickIndex, b.tickIndex + 1);
    } else if next != s.sqrtPrice {
      var tick := OrcaTickAt(next);
      PriceOrder(tick, tick + 1);
      PriceOrder(MAX_TICK, MAX_TICK + 1);
    }
  }

  /** The group's far edge is ahead of the price once some tick between them is. */
  lemma EdgeAhead(f: Fee, price: nat, t: int)
    requires InSpan(t) && MIN_SQRT_PRICE <= price <= ORCA_MAX_SQRT_PRICE
    requires if f.aToB then f.group * f.constants.groupSize <= t && OrcaPrice(t) <= price
             else t <= f.group * f.constants.groupSize + f.constants.groupSize && price <= OrcaPrice(t)
    ensures R.Ahead(price, OrcaPrice(f.GroupEdge()), f.aToB)
  {
    hide OrcaPrice;
    OrcaPriceBounds();
    var edge := f.GroupEdge();
    if f.aToB && edge <= t {
      PriceOrder(edge, t);
    } else if !f.aToB && t <= edge {
      PriceOrder(t, edge);
    }
  }

  /** Moving the group further along only moves its edge further along. */
  lemma EdgeFurther(f: Fee, group: int)
    requires if f.aToB then group <= f.group else f.group <= group
    ensures var edge := f.(group := group).GroupEdge();
            if f.aToB then edge <= f.GroupEdge() else f.GroupEdge() <= edge
  {
    if f.aToB {
      Multiples(group, f.group, f.constants.groupSize);
    } else {
      Multiples(f.group, group, f.constants.groupSize);
    }
  }

  lemma FurtherStaysAhead(f: Fee, group: int, price: nat)
    requires if f.aToB then group <= f.group else f.group <= group
    requires R.Ahead(price, OrcaPrice(f.GroupEdge()), f.aToB)
    ensures R.Ahead(price, OrcaPrice(f.(group := group).GroupEdge()), f.aToB)
  {
    hide OrcaPrice;
    EdgeFurther(f, group);
    if f.aToB {
      PriceOrder(f.(group := group).GroupEdge(), f.GroupEdge());
    } else {
      PriceOrder(f.GroupEdge(), f.(group := group).GroupEdge());
    }
  }

  /** The group last traversed starts at or below the tick the price landed on, and the next one ends past it. */
  lemma TraversedSpan(f: Fee, price: nat, nextTick: int)
    requires f.constants.groupSize > 0 && MIN_SQRT_PRICE <= price
    ensures var size, last := f.constants.groupSize, f.LastTraversed(price, OrcaPrice(nextTick), nextTick);
            var tick := if price == OrcaPrice(nextTick) then nextTick else OrcaTickAt(price);
            if f.aToB then (last - 1) * size <= tick
            else if TruncMod(tick, size) == 0 && price == OrcaPrice(tick) then tick <= (last + 1) * size + size
            else tick + 1 <= (last + 1) * size + size
  {
    hide OrcaPrice, OrcaTickAt;
    var size, last := f.constants.groupSize, f.LastTraversed(price, OrcaPrice(nextTick), nextTick);
    var tick := if price == OrcaPrice(nextTick) then nextTick else OrcaTickAt(price);
    Distribute(size, last, 1);
    if TruncMod(tick, size) == 0 {
      NoRemainder(tick, size);
      MultipleGroup(FloorIndex(tick, size), size, tick);
    }
  }

  /** One group past the last one traversed, the edge is ahead of where the step ended. */
  lemma TraversedEdgeAhead(f: Fee, price: nat, nextTick: int)
    requires f.constants.groupSize > 0 && InRange(nextTick)
    requires MIN_SQRT_PRICE <= price <= ORCA_MAX_SQRT_PRICE
    ensures var last := f.LastTraversed(price, OrcaPrice(nextTick), nextTick);
            R.Ahead(price, OrcaPrice(f.(group := if f.aToB then last - 1 else last + 1).GroupEdge()), f.aToB)
  {
    hide OrcaPrice, Fee.GroupEdge, Fee.LastTraversed;
    OrcaPriceBounds();
    TraversedSpan(f, price, nextTick);
    var tick := if price == OrcaPrice(nextTick) then nextTick else OrcaTickAt(price);
    var last := f.LastTraversed(price, OrcaPrice(nextTick), nextTick);
    PriceOrder(tick, tick + 1);
    PriceOrder(MAX_TICK, MAX_TICK + 1);
    if f.aToB {
      EdgeAhead(f.(group := last - 1), price, tick);
    } else if price == OrcaPrice(tick) && TruncMod(tick, f.constants.groupSize) == 0 {
      EdgeAhead(f.(group := last + 1), price, tick);
    } else {
      EdgeAhead(f.(group := last + 1), price, tick + 1);
    }
  }

  /** Advancing the manager keeps its constants and core range, moves the group strictly in the swap
      direction, and leaves the new group's edge ahead of the price. */
  lemma AdvanceSound(f: Fee, skip: bool, price: nat, b: Boundary)
    requires InRange(b.tickIndex) && MIN_SQRT_PRICE <= price <= ORCA_MAX_SQRT_PRICE
    requires f.adaptive ==>
               f.constants.groupSize > 0 && CoreWellFormed(f)
               && (skip || R.Ahead(price, OrcaPrice(f.GroupEdge()), f.aToB))
    ensures var after := Advance(f, skip, price, b);
            && after == f.(group := after.group, variables := after.variables)
            && after.variables == f.variables.(accumulator := after.variables.accumulator)
            && FeePositioned(after, price)
            && (f.adaptive ==> if f.aToB then after.group < f.group else f.group < after.group)
  {
    hide OrcaPrice, Fee.LastTraversed, Fee.GroupEdge;
    if f.adaptive {
      var after := Advance(f, skip, price, b);
      assert after.GroupEdge() == f.(group := after.group).GroupEdge() by { SameEdge(after, f.(group := after.group)); }
      if skip {
        var last := f.LastTraversed(price, OrcaPrice(b.tickIndex), b.tickIndex);
        TraversedEdgeAhead(f, price, b.tickIndex);
        var past := f.(group := if f.aToB then last - 1 else last + 1);
        FurtherStaysAhead(past, after.group, price);
        SameEdge(f.(group := after.group), past.(group := after.group));
      } else {
        FurtherStaysAhead(f, after.group, price);
      }
    }
  }

  lemma SameEdge(f: Fee, g: Fee)
    requires f.group == g.group && f.aToB == g.aToB && f.constants == g.constants
    ensures f.GroupEdge() == g.GroupEdge()
  {
  }

  /** A step that ends short of its group's edge has the edge still ahead. */
  lemma EdgeStaysAhead(f: Fee, price: nat, next: nat, target: nat, liquidity: nat)
    requires f.adaptive && FeePositioned(f, price) && MIN_SQRT_PRICE <= price <= ORCA_MAX_SQRT_PRICE
    requires R.Ahead(next, f.BoundedTarget(target, liquidity).0, f.aToB)
    requires !f.BoundedTarget(target, liquidity).1
    ensures R.Ahead(next, OrcaPrice(f.GroupEdge()), f.aToB)
  {
    hide OrcaPrice, Fee.GroupEdge;
  }

  // ---- the two loops ----

  /** One swap step and what follows it. */
  function StepOnce(s: State, b: Boundary, aToB: bool): Result<State, Error>
    requires Approaching(s, b, aToB)
  {
    hide OrcaPrice, ComputeSwapStep, Fee.BoundedTarget, Fee.GroupEdge;
    var fee := s.fee.Charged();
    TargetIsTick(b.tickIndex, aToB);
    BoundBetween(s, b, aToB);
    var (bounded, skip) := fee.BoundedTarget(ClampTarget(OrcaPrice(b.tickIndex), Limit(aToB), aToB), s.liquidity);
    var step :- ComputeSwapStep(s.remaining, fee.Rate(), s.liquidity, s.sqrtPrice, bounded, aToB);
    StepSound(s, bounded, fee.Rate(), aToB);
    var booked :- Book(s.(fee := fee), step);
    var arrived :- Arrive(booked, step.nextPrice, b, aToB);
    Ok(arrived.(sqrtPrice := step.nextPrice, fee := Advance(arrived.fee, skip, step.nextPrice, b)))
  }

  predicate Done(s: State, b: Boundary, aToB: bool) {
    s.remaining == 0 || s.sqrtPrice == ClampTarget(OrcaPrice(b.tickIndex), Limit(aToB), aToB)
  }

  /** Tick groups left before the tick range ends: the inner loop's measure. */
  function GroupsLeft(f: Fee): nat {
    if !f.adaptive then 0
    else if f.aToB then (if f.group > MIN_TICK then f.group - MIN_TICK else 0)
    else (if f.group < MAX_TICK then MAX_TICK - f.group else 0)
  }

  /** What one step guarantees. */
  ghost predicate StepGuarantee(s: State, n: State, b: Boundary, aToB: bool) {
    && Approaching(n, b, aToB)
    && R.Ahead(s.sqrtPrice, n.sqrtPrice, aToB)
    && n.remaining <= s.remaining && s.out <= n.out
    && R.WithinSpot(n.out - s.out, s.remaining - n.remaining, s.sqrtPrice, aToB)
    && n.fee == s.fee.(group := n.fee.group, variables := n.fee.variables)
    && n.fee.variables == s.fee.variables.(accumulator := n.fee.variables.accumulator)
    && (n.sqrtPrice == OrcaPrice(b.tickIndex) ==> n.tick == if aToB then b.tickIndex - 1 else b.tickIndex)
    && (n.sqrtPrice != OrcaPrice(b.tickIndex) ==> n.liquidity == s.liquidity)
    && (!Done(n, b, aToB) ==> GroupsLeft(n.fee) < GroupsLeft(s.fee))
  }

  /** A bound strictly before the boundary lies strictly inside the tick range, and so does its group. */
  lemma GroupsShrink(s: State, b: Boundary, aToB: bool)
    requires Approaching(s, b, aToB)
    requires s.fee.Charged().BoundedTarget(OrcaPrice(b.tickIndex), s.liquidity).0 != OrcaPrice(b.tickIndex)
    ensures s.fee.adaptive && if aToB then MIN_TICK < s.fee.group else s.fee.group < MAX_TICK
  {
    hide OrcaPrice, Fee.GroupEdge;
    var f := s.fee;
    OrcaPriceBounds();
    TargetIsTick(b.tickIndex, aToB);
    BoundBetween(s, b, aToB);
    SameEdge(f, f.Charged());
    if f.coreLower.Some? && f.group < f.coreLower.value.index {
      if !aToB {
        SmallIndex(f.coreLower.value.index, f.constants.groupSize);
      }
    } else if f.coreUpper.Some? && f.group > f.coreUpper.value.index {
      if aToB {
        Distribute(f.constants.groupSize, f.coreUpper.value.index, 1);
        SmallIndex(f.coreUpper.value.index + 1, f.constants.groupSize);
      }
    } else {
      InsideGroup(f);
    }
  }

  lemma InsideGroup(f: Fee)
    requires f.constants.groupSize > 0
    ensures f.aToB && MIN_TICK < f.GroupEdge() ==> MIN_TICK < f.group
    ensures !f.aToB && f.GroupEdge() < MAX_TICK ==> f.group < MAX_TICK
  {
    Distribute(f.constants.groupSize, f.group, 1);
    SmallIndex(f.group, f.constants.groupSize);
    SmallIndex(f.group + 1, f.constants.groupSize);
  }

  /** What one iteration trades, exactly: a step along the curve to its bound, with the fee charged on the input. */
  lemma IterationTrades(s: State, b: Boundary, aToB: bool)
    requires Approaching(s, b, aToB)
    ensures var next, fee := StepOnce(s, b, aToB), s.fee.Charged();
            next.Ok? ==>
              var n := next.value;
              fee.Rate() < FEE_RATE_MUL
              && R.TradesTo(n.sqrtPrice, s.remaining - n.remaining, n.out - s.out, s.sqrtPrice,
                            fee.BoundedTarget(OrcaPrice(b.tickIndex), s.liquidity).0, s.liquidity, s.remaining,
                            fee.Rate(), 0, aToB)
  {
    hide OrcaPrice, ComputeSwapStep, Advance, Arrive, Fee.BoundedTarget, Fee.GroupEdge, R.WithinSpot, R.ComputeSwapStep,
      R.TradesTo;
    var next := StepOnce(s, b, aToB);
    if next.Ok? {
      var target := OrcaPrice(b.tickIndex);
      TargetIsTick(b.tickIndex, aToB);
      BoundBetween(s, b, aToB);
      var fee := s.fee.Charged();
      var bounded := fee.BoundedTarget(target, s.liquidity).0;
      StepSound(s, bounded, fee.Rate(), aToB);
      StepsAgree(s.remaining, fee.Rate(), s.liquidity, s.sqrtPrice, bounded, aToB);
      R.StepTrades(s.sqrtPrice, bounded, s.liquidity, s.remaining, fee.Rate(), aToB, true);
      var step := ComputeSwapStep(s.remaining, fee.Rate(), s.liquidity, s.sqrtPrice, bounded, aToB).value;
      ArriveKeeps(Book(s.(fee := fee), step).value, step.nextPrice, b, aToB);
    }
  }

  lemma ArriveKeeps(s: State, next: nat, b: Boundary, aToB: bool)
    requires MIN_SQRT_PRICE <= next
    ensures var arrived := Arrive(s, next, b, aToB);
            arrived.Ok? ==> arrived.value == s.(liquidity := arrived.value.liquidity, tick := arrived.value.tick)
  {
    hide OrcaPrice, OrcaTickAt;
  }

  lemma StepOnceSound(s: State, b: Boundary, aToB: bool)
    requires Approaching(s, b, aToB)
    ensures var next := StepOnce(s, b, aToB);
            next.Ok? ==> StepGuarantee(s, next.value, b, aToB)
  {
    hide OrcaPrice, ComputeSwapStep, Arrive, Advance, Fee.BoundedTarget, Fee.GroupEdge, R.WithinSpot, GroupsLeft;
    var next := StepOnce(s, b, aToB);
    if next.Ok? {
      var target := OrcaPrice(b.tickIndex);
      TargetIsTick(b.tickIndex, aToB);
      BoundBetween(s, b, aToB);
      var fee := s.fee.Charged();
      SameEdge(s.fee, fee);
      var (bounded, skip) := fee.BoundedTarget(target, s.liquidity);
      StepSound(s, bounded, fee.Rate(), aToB);
      var step := ComputeSwapStep(s.remaining, fee.Rate(), s.liquidity, s.sqrtPrice, bounded, aToB).value;
      var booked := Book(s.(fee := fee), step).value;
      ArriveSound(booked, step.nextPrice, b, aToB);
      if fee.adaptive && !skip {
        EdgeStaysAhead(fee, s.sqrtPrice, step.nextPrice, target, s.liquidity);
      }
      AdvanceSound(fee, skip, step.nextPrice, b);
      if !Done(next.value, b, aToB) {
        GroupsShrink(s, b, aToB);
        MeasureDrops(s.fee, next.value.fee);
      }
    }
  }

  lemma MeasureDrops(f: Fee, g: Fee)
    requires f.adaptive && g.adaptive && f.aToB == g.aToB
    requires if f.aToB then MIN_TICK < f.group && g.group < f.group else f.group < MAX_TICK && f.group < g.group
    ensures GroupsLeft(g) < GroupsLeft(f)
  {
  }

  /** The walk to one boundary. */
  function StepToBoundary(s: State, b: Boundary, aToB: bool): Result<State, Error>
    requires Approaching(s, b, aToB)
    decreases GroupsLeft(s.fee)
  {
    hide Approaching, StepOnce, Done, GroupsLeft, OrcaPrice;
    var next :- StepOnce(s, b, aToB);
    StepOnceSound(s, b, aToB);
    if Done(next, b, aToB) then Ok(next) else StepToBoundary(next, b, aToB)
  }

  ghost predicate WalkGuarantee(s: State, n: State, b: Boundary, aToB: bool) {
    && Positioned(n, aToB)
    && R.Ahead(s.sqrtPrice, n.sqrtPrice, aToB) && R.Ahead(n.sqrtPrice, OrcaPrice(b.tickIndex), aToB)
    && n.remaining <= s.remaining && s.out <= n.out
    && R.WithinSpot(n.out - s.out, s.remaining - n.remaining, s.sqrtPrice, aToB)
    && (n.remaining > 0 ==> n.sqrtPrice == OrcaPrice(b.tickIndex)
                            && n.tick == if aToB then b.tickIndex - 1 else b.tickIndex)
  }

  lemma {:induction false} StepToBoundarySound(s: State, b: Boundary, aToB: bool)
    requires Approaching(s, b, aToB)
    ensures var walked := StepToBoundary(s, b, aToB);
            walked.Ok? ==> WalkGuarantee(s, walked.value, b, aToB)
    decreases GroupsLeft(s.fee)
  {
    hide StepOnce, OrcaPrice, R.WithinSpot, GroupsLeft, FeePositioned;
    var next := StepOnce(s, b, aToB);
    TargetIsTick(b.tickIndex, aToB);
    StepOnceSound(s, b, aToB);
    if next.Ok? && !Done(next.value, b, aToB) {
      var n := next.value;
      StepToBoundarySound(n, b, aToB);
      var walked := StepToBoundary(n, b, aToB);
      if walked.Ok? {
        SpotChains(s, n, walked.value, aToB);
      }
    }
  }

  /** Two trades in a row, the second from a price further along, are within the first one's spot. */
  lemma SpotChains(s: State, m: State, n: State, aToB: bool)
    requires R.Ahead(s.sqrtPrice, m.sqrtPrice, aToB)
    requires n.remaining <= m.remaining <= s.remaining && s.out <= m.out <= n.out
    requires R.WithinSpot(m.out - s.out, s.remaining - m.remaining, s.sqrtPrice, aToB)
    requires R.WithinSpot(n.out - m.out, m.remaining - n.remaining, m.sqrtPrice, aToB)
    ensures R.WithinSpot(n.out - s.out, s.remaining - n.remaining, s.sqrtPrice, aToB)
  {
    hide R.WithinSpot;
    R.SpotWorsens(n.out - m.out, m.remaining - n.remaining, s.sqrtPrice, m.sqrtPrice, aToB);
    R.SpotAdds(m.out - s.out, s.remaining - m.remaining, n.out - m.out, m.remaining - n.remaining, s.sqrtPrice, aToB);
  }

  /** The liquidity past a boundary: with its net added going up and taken off going down. */
  function LiquidityPast(liquidity: nat, b: Boundary, aToB: bool): int {
    if !b.initialized || b.liquidityNet.None? then liquidity
    else if aToB then liquidity - b.liquidityNet.value
    else liquidity + b.liquidityNet.value
  }

  /** One iteration crosses the boundary exactly when it reaches it. */
  lemma StepCrosses(s: State, b: Boundary, aToB: bool)
    requires Approaching(s, b, aToB)
    ensures var next := StepOnce(s, b, aToB);
            next.Ok? ==>
              next.value.liquidity == if next.value.sqrtPrice == OrcaPrice(b.tickIndex)
              then LiquidityPast(s.liquidity, b, aToB) else s.liquidity
  {
    hide OrcaPrice, ComputeSwapStep, Fee.BoundedTarget, Fee.GroupEdge, Advance;
  }

  /** A walk crosses its boundary exactly when it reaches it, and only once: the liquidity changes by the
      boundary's net, or not at all. */
  lemma {:induction false} WalkCrossesOnce(s: State, b: Boundary, aToB: bool)
    requires Approaching(s, b, aToB)
    ensures var walked := StepToBoundary(s, b, aToB);
            walked.Ok? ==>
              walked.value.liquidity == if walked.value.sqrtPrice == OrcaPrice(b.tickIndex)
              then LiquidityPast(s.liquidity, b, aToB) else s.liquidity
    decreases GroupsLeft(s.fee)
  {
    hide StepOnce, OrcaPrice, R.WithinSpot, GroupsLeft, FeePositioned, LiquidityPast;
    var next := StepOnce(s, b, aToB);
    TargetIsTick(b.tickIndex, aToB);
    StepOnceSound(s, b, aToB);
    StepCrosses(s, b, aToB);
    if next.Ok? && !Done(next.value, b, aToB) {
      WalkCrossesOnce(next.value, b, aToB);
    }
  }

  function TicksLeft(s: State, aToB: bool): nat {
    if aToB then (if s.tick >= MIN_TICK then s.tick - MIN_TICK + 1 else 0)
    else (if s.tick < MAX_TICK then MAX_TICK - s.tick else 0)
  }

  lemma AtBoundary(s: State, b: Boundary, aToB: bool)
    requires Positioned(s, aToB) && StopFrom(s.tick, b, aToB)
    ensures Approaching(s, b, aToB)
  {
    hide OrcaPrice;
    if aToB {
      PriceOrder(b.tickIndex, s.tick);
    } else {
      PriceOrder(s.tick + 1, b.tickIndex);
    }
  }

  /** Short of its limit a run stands inside the tick range. */
  lemma InsideRange(s: State, aToB: bool)
    requires Positioned(s, aToB) && s.sqrtPrice != Limit(aToB)
    ensures if aToB then MIN_TICK <= s.tick else s.tick < MAX_TICK
  {
    hide OrcaPrice, FeePositioned;
    OrcaPriceBounds();
    if aToB {
      if s.tick < MIN_TICK {
        PriceOrder(s.tick + 1, MIN_TICK);
      }
    } else if s.tick >= MAX_TICK {
      PriceOrder(MAX_TICK, s.tick);
    }
  }

  /** The whole swap. */
  function Run(s: State, aToB: bool, ticks: TickProvider): Result<State, Error>
    requires Positioned(s, aToB) && Honours(ticks, aToB)
    decreases s.remaining > 0, TicksLeft(s, aToB)
  {
    hide Positioned, Approaching, StepToBoundary, OrcaPrice;
    if s.remaining == 0 || s.sqrtPrice == Limit(aToB) then Ok(s)
    else
      match ticks(s.tick, aToB)
      case None => Ok(s)
      case Some(b) =>
        AtBoundary(s, b, aToB);
        var next :- StepToBoundary(s, b, aToB);
        StepToBoundarySound(s, b, aToB);
        Run(next, aToB, ticks)
  }

  /** Every run against an honouring provider ends, moves the price only forward and within the limit,
      and is within the spot price it started from, under a static or an adaptive fee. */
  lemma {:induction false} RunSound(s: State, aToB: bool, ticks: TickProvider)
    requires Positioned(s, aToB) && Honours(ticks, aToB)
    ensures var end := Run(s, aToB, ticks);
            end.Ok? ==>
              var n := end.value;
              && Positioned(n, aToB)
              && R.Ahead(s.sqrtPrice, n.sqrtPrice, aToB) && R.Ahead(n.sqrtPrice, Limit(aToB), aToB)
              && n.remaining <= s.remaining && s.out <= n.out
              && R.WithinSpot(n.out - s.out, s.remaining - n.remaining, s.sqrtPrice, aToB)
              && (n.remaining == 0 || n.sqrtPrice == Limit(aToB) || ticks(n.tick, aToB).None?)
    decreases s.remaining > 0, TicksLeft(s, aToB)
  {
    hide StepToBoundary, OrcaPrice, R.WithinSpot, Approaching, FeePositioned;
    if s.remaining == 0 || s.sqrtPrice == Limit(aToB) || ticks(s.tick, aToB).None? {
      R.SpotOfNothing(s.sqrtPrice, aToB);
    } else {
      var b := ticks(s.tick, aToB).value;
      AtBoundary(s, b, aToB);
      var next := StepToBoundary(s, b, aToB);
      StepToBoundarySound(s, b, aToB);
      if next.Ok? {
        RunSound(next.value, aToB, ticks);
        var end := Run(next.value, aToB, ticks);
        if end.Ok? {
          SpotChains(s, next.value, end.value, aToB);
        }
      }
    }
  }
}
