/** The dynamic fee follows the price: over stops on the tick-spacing grid the state's group is throughout every
    run the one the next piece of price movement lies in; and exactly when a step that skips its bound charges
    every group it crosses that group's own rate. */
module RaydiumTracking {
  import opened Rounding
  import opened Wrappers
  import opened MachineIntegers
  import opened TickTables
  import opened TickMath
  import opened RaydiumMath
  import opened RaydiumFee
  import opened RaydiumRun
  import opened RaydiumTheorems
  import opened RaydiumQuote

  // ---- the invariant ----

  /** The edge of the current group on the side the price comes from. */
  function NearEdge(s: State, zeroForOne: bool): (tick: int)
    ensures InRange(tick)
  {
    var low := s.spacingIdx * s.tickSpacing;
    var edge := if zeroForOne then low + s.tickSpacing else low;
    if edge < MIN_TICK then MIN_TICK else if edge > MAX_TICK then MAX_TICK else edge
  }

  /** The group holds the price, and neither the tick range nor the boundary lies behind it. */
  ghost predicate Tracks(s: State, b: Boundary, zeroForOne: bool) {
    s.dyn.Some? ==>
      var low := s.spacingIdx * s.tickSpacing;
      && Ahead(RaydiumPrice(NearEdge(s, zeroForOne)), s.sqrtPrice, zeroForOne)
      && Ahead(s.sqrtPrice, RaydiumPrice(GroupEdge(s, zeroForOne)), zeroForOne)
      && (if zeroForOne then low <= MAX_TICK && b.tickIndex < low + s.tickSpacing
          else MIN_TICK <= low + s.tickSpacing && low < b.tickIndex)
  }

  /** Between walks: the group is the current tick's. */
  ghost predicate Synced(s: State) {
    s.dyn.Some? ==> s.tickSpacing > 0 && s.spacingIdx == FloorIndex(s.tick, s.tickSpacing)
  }

  predicate OnGrid(b: Boundary, tickSpacing: nat)
    requires tickSpacing > 0
  {
    TruncMod(b.tickIndex, tickSpacing) == 0
  }

  /** Every stop lies on the tick-spacing grid. */
  ghost predicate GridStops(ticks: TickProvider, zeroForOne: bool, tickSpacing: nat)
    requires tickSpacing > 0
  {
    forall t: int :: ticks(t, zeroForOne).Some? ==> OnGrid(ticks(t, zeroForOne).value, tickSpacing)
  }

  lemma LowerEdge(s: State)
    ensures (s.spacingIdx + 1) * s.tickSpacing == s.spacingIdx * s.tickSpacing + s.tickSpacing
    ensures (s.spacingIdx - 1) * s.tickSpacing == s.spacingIdx * s.tickSpacing - s.tickSpacing
  {
    Distribute(s.tickSpacing, s.spacingIdx, 1);
  }

  /** A walk that starts in sync starts on track. */
  lemma SyncedTracks(s: State, b: Boundary, zeroForOne: bool)
    requires Positioned(s, zeroForOne) && StopFrom(s.tick, b, zeroForOne) && Synced(s)
    ensures Tracks(s, b, zeroForOne)
  {
    hide RaydiumPrice;
    if s.dyn.Some? {
      RaydiumPriceBounds();
      var edge := NearEdge(s, zeroForOne);
      if zeroForOne && s.tick + 1 <= edge {
        PriceOrder(s.tick + 1, edge);
      } else if !zeroForOne && edge <= s.tick {
        PriceOrder(edge, s.tick);
      }
    }
  }

  lemma PriceInjective(t: int, u: int)
    requires InSpan(t) && InSpan(u)
    ensures RaydiumPrice(t) < RaydiumPrice(u) <==> t < u
    ensures RaydiumPrice(t) == RaydiumPrice(u) <==> t == u
  {
    hide RaydiumPrice;
    if t < u {
      RaydiumPriceIncreasing(t, u);
    } else if u < t {
      RaydiumPriceIncreasing(u, t);
    }
  }

  /** When input is left an iteration ended on its bound, and the index advanced from there. */
  lemma StepOnceShape(i: Inner, b: Boundary, zeroForOne: bool, feeOnInput: bool)
    requires Approaching(i, b, zeroForOne) && StepOnce(i, b, zeroForOne, feeOnInput).Ok?
    ensures var n, c := StepOnce(i, b, zeroForOne, feeOnInput).value.s, i.s.Charged();
            var bound := StepBound(i, RaydiumPrice(b.tickIndex), zeroForOne);
            var landed := c.(remaining := n.remaining, out := n.out, tick := n.tick, sqrtPrice := n.sqrtPrice);
            && (i.s.dyn.Some? ==> i.s.tickSpacing > 0)
            && n == AdvanceIndex(landed, zeroForOne, bound.skipped, RaydiumPrice(b.tickIndex), b.tickIndex)
            && Ahead(n.sqrtPrice, bound.price, zeroForOne)
            && (n.remaining > 0 ==> n.sqrtPrice == bound.price)
  {
    hide RaydiumPrice, MoveTo, Settle, WithinSpot, StepBound, AdvanceIndex, GroupEdge;
    var tickPrice := RaydiumPrice(b.tickIndex);
    TargetIsTick(b.tickIndex, zeroForOne);
    BoundBetween(i, b, zeroForOne);
    var bound, rate := StepBound(i, tickPrice, zeroForOne), StepRate(i);
    MoveSound(i.s.Charged(), bound.price, rate, zeroForOne, feeOnInput);
    var moved := MoveTo(i.s.Charged(), bound.price, rate, zeroForOne, feeOnInput).value;
    SettleSound(i, moved, b, bound, rate, zeroForOne, feeOnInput);
    SettleKeepsShape(i, moved, b, bound, rate, zeroForOne, feeOnInput);
    var settled := Settle(i, moved, b, bound, rate, zeroForOne, feeOnInput).value.s;
    AdvanceKeeps(settled.(sqrtPrice := moved.next), zeroForOne, bound.skipped, tickPrice, b.tickIndex);
  }

  /** Short of the boundary, every iteration stays on track. */
  lemma StepTracks(i: Inner, b: Boundary, zeroForOne: bool, feeOnInput: bool)
    requires Approaching(i, b, zeroForOne) && Tracks(i.s, b, zeroForOne)
    requires StepOnce(i, b, zeroForOne, feeOnInput).Ok?
    requires !Done(StepOnce(i, b, zeroForOne, feeOnInput).value, b, zeroForOne)
    ensures Tracks(StepOnce(i, b, zeroForOne, feeOnInput).value.s, b, zeroForOne)
  {
    hide RaydiumPrice, StepOnce, WithinSpot;
    StepOnceShape(i, b, zeroForOne, feeOnInput);
    StepOnceSound(i, b, zeroForOne, feeOnInput);
    TargetIsTick(b.tickIndex, zeroForOne);
    BoundBetween(i, b, zeroForOne);
    LowerEdge(i.s);
    if i.s.dyn.Some? {
      PriceInjective(b.tickIndex, GroupEdge(i.s, zeroForOne));
      PriceInjective(GroupEdge(i.s, zeroForOne), b.tickIndex);
      LowerEdge(StepOnce(i, b, zeroForOne, feeOnInput).value.s);
    }
  }

  /** A walk that reaches a boundary on the grid with input left ends in sync with the tick it crossed to. */
  lemma StepSyncs(i: Inner, b: Boundary, zeroForOne: bool, feeOnInput: bool)
    requires Approaching(i, b, zeroForOne) && Tracks(i.s, b, zeroForOne)
    requires StepOnce(i, b, zeroForOne, feeOnInput).Ok?
    requires var n := StepOnce(i, b, zeroForOne, feeOnInput).value; Done(n, b, zeroForOne) && n.s.remaining > 0
    requires i.s.dyn.Some? ==> i.s.tickSpacing > 0 && OnGrid(b, i.s.tickSpacing)
    ensures Synced(StepOnce(i, b, zeroForOne, feeOnInput).value.s)
  {
    hide RaydiumPrice, StepOnce, WithinSpot;
    StepOnceShape(i, b, zeroForOne, feeOnInput);
    StepOnceSound(i, b, zeroForOne, feeOnInput);
    TargetIsTick(b.tickIndex, zeroForOne);
    BoundBetween(i, b, zeroForOne);
    if i.s.dyn.Some? {
      var size := i.s.tickSpacing;
      var index := FloorIndex(b.tickIndex, size);
      NoRemainder(b.tickIndex, size);
      MultipleGroup(index, size, b.tickIndex);
      if !StepBound(i, RaydiumPrice(b.tickIndex), zeroForOne).skipped {
        StepToGrid(i.s, b, index, zeroForOne);
      }
    }
  }

  /** A bounded step that reached a boundary on the grid reached it on the group's far edge. */
  lemma StepToGrid(s: State, b: Boundary, index: int, zeroForOne: bool)
    requires s.dyn.Some? && Tracks(s, b, zeroForOne) && InRange(b.tickIndex)
    requires s.tickSpacing > 0 && b.tickIndex == index * s.tickSpacing
    requires Ahead(RaydiumPrice(b.tickIndex), RaydiumPrice(GroupEdge(s, zeroForOne)), zeroForOne)
    ensures s.spacingIdx == if zeroForOne then index else index - 1
  {
    hide RaydiumPrice;
    var size := s.tickSpacing;
    PriceInjective(b.tickIndex, GroupEdge(s, zeroForOne));
    PriceInjective(GroupEdge(s, zeroForOne), b.tickIndex);
    LowerEdge(s);
    if zeroForOne {
      MultipleOrder(index, s.spacingIdx, size);
      MultipleOrder(s.spacingIdx, index, size);
    } else {
      StrictMultiple(s.spacingIdx, index, size);
      MultipleOrder(index, s.spacingIdx + 1, size);
    }
  }

  // ---- what a skipped bound charges ----

  /** The fee as a live pool has it: a reference that is the group of some tick, and a 16-bit tick spacing. */
  ghost predicate FeeBuilt(s: State) {
    s.dyn.Some? ==>
      && 0 < s.tickSpacing < TICK_SPAN - MAX_TICK
      && s.dyn.value.volatilityReference < TWO32 && InSpan(s.dyn.value.indexReference)
  }

  /** The rate the current reference gives a group. */
  function GroupRate(s: State, group: int): nat
    requires s.dyn.Some? && s.baseFeeRate < FEE_DENOMINATOR
  {
    TotalFeeRate(Some(s.dyn.value.UpdateAccumulator(group)), s.tickSpacing, s.baseFeeRate)
  }

  /** The price movement between p and q touches the inside of group h. */
  ghost predicate Crosses(p: nat, q: nat, h: int, tickSpacing: nat) {
    && InSpan(h * tickSpacing) && InSpan(h * tickSpacing + tickSpacing)
    && RaydiumPrice(h * tickSpacing) < Max(p, q) && Min(p, q) < RaydiumPrice(h * tickSpacing + tickSpacing)
  }

  /** The last group a movement from the current one to the price q gets to. */
  function LastGroup(s: State, q: nat, zeroForOne: bool): int
    requires s.tickSpacing > 0 && MIN_SQRT_PRICE <= q
  {
    var t := RaydiumTickAt(q);
    var at := FloorIndex(t, s.tickSpacing);
    if zeroForOne then (if at < s.spacingIdx then at else s.spacingIdx)
    else
      var last := if RaydiumPrice(t) == q && TruncMod(t, s.tickSpacing) == 0 then at - 1 else at;
      if last > s.spacingIdx then last else s.spacingIdx
  }

  /** h lies on the way from one group to another. */
  predicate OnTheWay(from: int, h: int, last: int) {
    from <= h <= last || last <= h <= from
  }

  /** The group on the way closest to the reference. */
  function ClosestApproach(reference: int, from: int, last: int): int {
    if from <= last then (if reference < from then from else if reference > last then last else reference)
    else (if reference > from then from else if reference < last then last else reference)
  }

  lemma ApproachIsClosest(reference: int, from: int, h: int, last: int)
    requires OnTheWay(from, h, last)
    ensures OnTheWay(from, ClosestApproach(reference, from, last), last)
    ensures Distance(reference, ClosestApproach(reference, from, last)) <= Distance(reference, h)
    ensures Distance(reference, h) <= Distance(reference, from) || Distance(reference, h) <= Distance(reference, last)
  {
  }

  lemma DownReaches(s: State, b: Boundary, q: nat, h: int)
    requires s.dyn.Some? && FeeBuilt(s) && Tracks(s, b, true) && InRange(b.tickIndex)
    requires q <= s.sqrtPrice && MIN_SQRT_PRICE <= q <= RAYDIUM_MAX_SQRT_PRICE
    requires Crosses(s.sqrtPrice, q, h, s.tickSpacing)
    ensures LastGroup(s, q, true) <= h <= s.spacingIdx
  {
    hide RaydiumPrice, GroupEdge;
    var size, t := s.tickSpacing, RaydiumTickAt(q);
    PriceInjective(h * size, NearEdge(s, true));
    MultipleOrder(h, s.spacingIdx, size);
    PriceInjective(t, h * size + size);
    MultipleOrder(FloorIndex(t, size), h, size);
  }

  lemma UpReaches(s: State, b: Boundary, q: nat, h: int)
    requires s.dyn.Some? && FeeBuilt(s) && Tracks(s, b, false) && InRange(b.tickIndex)
    requires s.sqrtPrice <= q && MIN_SQRT_PRICE <= q <= RAYDIUM_MAX_SQRT_PRICE
    requires Crosses(s.sqrtPrice, q, h, s.tickSpacing)
    ensures s.spacingIdx <= h <= LastGroup(s, q, false)
  {
    hide RaydiumPrice, GroupEdge;
    var size, t := s.tickSpacing, RaydiumTickAt(q);
    var at := FloorIndex(t, size);
    RaydiumPriceBounds();
    PriceInjective(NearEdge(s, false), h * size + size);
    MultipleOrder(s.spacingIdx, h, size);
    PriceInjective(h * size, t + 1);
    PriceInjective(h * size, t);
    FloorIndexIsGreatest(t, size, h);
    if RaydiumPrice(t) == q && TruncMod(t, size) == 0 {
      NoRemainder(t, size);
      StrictMultiple(h, at, size);
    }
  }

  /** A crossed group lies on the way from the current group to the last. */
  lemma CrossedIsOnTheWay(s: State, b: Boundary, q: nat, zeroForOne: bool, h: int)
    requires s.dyn.Some? && FeeBuilt(s) && Tracks(s, b, zeroForOne) && InRange(b.tickIndex)
    requires Ahead(s.sqrtPrice, q, zeroForOne) && MIN_SQRT_PRICE <= q <= RAYDIUM_MAX_SQRT_PRICE
    requires Crosses(s.sqrtPrice, q, h, s.tickSpacing)
    ensures OnTheWay(s.spacingIdx, h, LastGroup(s, q, zeroForOne))
  {
    hide RaydiumPrice, Tracks, Crosses;
    if zeroForOne {
      DownReaches(s, b, q, h);
    } else {
      UpReaches(s, b, q, h);
    }
  }

  /** Every other group on the way is crossed, going down. */
  lemma DownIsCrossed(s: State, b: Boundary, q: nat, h: int)
    requires s.dyn.Some? && FeeBuilt(s) && Tracks(s, b, true) && InRange(b.tickIndex)
    requires q <= s.sqrtPrice && MIN_SQRT_PRICE <= q <= RAYDIUM_MAX_SQRT_PRICE
    requires LastGroup(s, q, true) <= h < s.spacingIdx
    ensures Crosses(s.sqrtPrice, q, h, s.tickSpacing)
  {
    hide RaydiumPrice, NearEdge;
    var size, t := s.tickSpacing, RaydiumTickAt(q);
    LowerEdge(s);
    RaydiumPriceBounds();
    Multiples(FloorIndex(t, size), h, size);
    Multiples(h, s.spacingIdx - 1, size);
    PriceInjective(h * size, GroupEdge(s, true));
    PriceInjective(t + 1, h * size + size);
    PriceInjective(MAX_TICK, h * size + size);
  }

  /** And going up. */
  lemma UpIsCrossed(s: State, b: Boundary, q: nat, h: int)
    requires s.dyn.Some? && FeeBuilt(s) && Tracks(s, b, false) && InRange(b.tickIndex)
    requires s.sqrtPrice <= q && MIN_SQRT_PRICE <= q <= RAYDIUM_MAX_SQRT_PRICE
    requires s.spacingIdx < h <= LastGroup(s, q, false)
    ensures Crosses(s.sqrtPrice, q, h, s.tickSpacing)
  {
    hide RaydiumPrice, NearEdge;
    var size, t := s.tickSpacing, RaydiumTickAt(q);
    var at := FloorIndex(t, size);
    LowerEdge(s);
    Multiples(s.spacingIdx + 1, h, size);
    Multiples(h, at, size);
    PriceInjective(GroupEdge(s, false), h * size + size);
    PriceInjective(h * size, t);
    if RaydiumPrice(t) == q && TruncMod(t, size) == 0 {
      NoRemainder(t, size);
      Distribute(size, at, 1);
      Multiples(h, at - 1, size);
    } else if h * size == t {
      MultipleGroup(h, size, t);
    }
  }

  /** The groups a tracked movement concerns are less than 2^31 from the reference. */
  lemma WithinReach(s: State, b: Boundary, q: nat, zeroForOne: bool)
    requires s.dyn.Some? && FeeBuilt(s) && Tracks(s, b, zeroForOne) && InRange(b.tickIndex)
    requires MIN_SQRT_PRICE <= q
    ensures Distance(s.dyn.value.indexReference, s.spacingIdx) < 0x8000_0000
    ensures Distance(s.dyn.value.indexReference, LastGroup(s, q, zeroForOne)) < 0x8000_0000
  {
    hide RaydiumPrice;
    SmallIndex(s.spacingIdx, s.tickSpacing);
    SmallIndex(FloorIndex(RaydiumTickAt(q), s.tickSpacing), s.tickSpacing);
  }

  /** No group charges more than a saturated one. */
  lemma SaturatedChargesMost(s: State, h: int)
    requires s.dyn.Some? && s.baseFeeRate < FEE_DENOMINATOR
    requires s.Charged().dyn.value.accumulator == s.dyn.value.maxAccumulator
    ensures GroupRate(s, h) <= GroupRate(s, s.spacingIdx)
  {
    hide DynamicFee.Rate;
    var d := s.dyn.value;
    RateGrows(d, d.UpdateAccumulator(h).accumulator, d.maxAccumulator, s.tickSpacing);
  }

  /** From a saturated group, the one closest to the reference decides for all on the way. */
  lemma ClosestDecides(s: State, h: int, last: int)
    requires s.dyn.Some? && s.baseFeeRate < FEE_DENOMINATOR && s.dyn.value.volatilityReference < TWO32
    requires s.Charged().dyn.value.accumulator == s.dyn.value.maxAccumulator
    requires Distance(s.dyn.value.indexReference, s.spacingIdx) < 0x8000_0000
    requires Distance(s.dyn.value.indexReference, last) < 0x8000_0000
    requires OnTheWay(s.spacingIdx, h, last)
    ensures var closest := ClosestApproach(s.dyn.value.indexReference, s.spacingIdx, last);
            GroupRate(s, closest) <= GroupRate(s, h) <= GroupRate(s, s.spacingIdx)
  {
    var d := s.dyn.value;
    var closest := ClosestApproach(d.indexReference, s.spacingIdx, last);
    ApproachIsClosest(d.indexReference, s.spacingIdx, h, last);
    FeeNeverFallsWithDistance(d, closest, h, s.tickSpacing, s.baseFeeRate);
    SaturatedChargesMost(s, h);
  }

  /** A step that skips its bound on live liquidity. */
  ghost predicate Skips(i: Inner, b: Boundary, zeroForOne: bool) {
    i.s.dyn.Some? && i.s.liquidity > 0 && StepBound(i, RaydiumPrice(b.tickIndex), zeroForOne).skipped
  }

  /** A movement charged at the step's rate charges every group it crosses that group's own rate. */
  ghost predicate Flat(i: Inner, q: nat)
    requires i.s.dyn.Some? && i.s.baseFeeRate < FEE_DENOMINATOR
  {
    forall h :: Crosses(i.s.sqrtPrice, q, h, i.s.tickSpacing) ==> GroupRate(i.s, h) == StepRate(i)
  }

  /** A skipping step to the price q is flat exactly when the group on its way closest to the reference has the
      rate it charges. */
  lemma SkipIsFlatIff(i: Inner, b: Boundary, q: nat, zeroForOne: bool)
    requires Approaching(i, b, zeroForOne) && Tracks(i.s, b, zeroForOne) && FeeBuilt(i.s) && Skips(i, b, zeroForOne)
    requires Ahead(i.s.sqrtPrice, q, zeroForOne) && MIN_SQRT_PRICE <= q <= RAYDIUM_MAX_SQRT_PRICE
    ensures var closest := ClosestApproach(i.s.dyn.value.indexReference, i.s.spacingIdx, LastGroup(i.s, q, zeroForOne));
            Flat(i, q) <==> GroupRate(i.s, closest) == StepRate(i)
  {
    hide RaydiumPrice, GroupRate, GroupEdge, Crosses, Tracks;
    var s, last := i.s, LastGroup(i.s, q, zeroForOne);
    var closest := ClosestApproach(s.dyn.value.indexReference, s.spacingIdx, last);
    WithinReach(s, b, q, zeroForOne);
    OwnRate(i);
    ApproachIsClosest(s.dyn.value.indexReference, s.spacingIdx, s.spacingIdx, last);
    if GroupRate(s, closest) == StepRate(i) {
      forall h | Crosses(s.sqrtPrice, q, h, s.tickSpacing) ensures GroupRate(s, h) == StepRate(i) {
        CrossedIsOnTheWay(s, b, q, zeroForOne, h);
        ClosestDecides(s, h, last);
      }
    } else {
      if zeroForOne {
        DownIsCrossed(s, b, q, closest);
      } else {
        UpIsCrossed(s, b, q, closest);
      }
    }
  }

  lemma OwnRate(i: Inner)
    requires i.s.dyn.Some? && i.s.baseFeeRate < FEE_DENOMINATOR
    ensures StepRate(i) == GroupRate(i.s, i.s.spacingIdx)
  {
  }

  /** In particular a skip that moves away from the reference is flat, however far it goes. */
  lemma SkipAwayIsFlat(i: Inner, b: Boundary, q: nat, zeroForOne: bool)
    requires Approaching(i, b, zeroForOne) && Tracks(i.s, b, zeroForOne) && FeeBuilt(i.s) && Skips(i, b, zeroForOne)
    requires Ahead(i.s.sqrtPrice, q, zeroForOne) && MIN_SQRT_PRICE <= q <= RAYDIUM_MAX_SQRT_PRICE
    requires if zeroForOne then i.s.spacingIdx <= i.s.dyn.value.indexReference
             else i.s.dyn.value.indexReference <= i.s.spacingIdx
    ensures Flat(i, q)
  {
    hide RaydiumPrice, GroupRate, Flat, Tracks, FeeBuilt, RaydiumTickAt;
    OwnRate(i);
    SkipIsFlatIff(i, b, q, zeroForOne);
  }

  // ---- whole runs ----

  /** On course: the group holds the price, and where the step skips its bound, it is flat exactly when the group
      on its way closest to the reference has the rate it charges. */
  ghost predicate OnCourse(i: Inner, b: Boundary, zeroForOne: bool, feeOnInput: bool) {
    && Approaching(i, b, zeroForOne) && Tracks(i.s, b, zeroForOne)
    && (Skips(i, b, zeroForOne) ==> SkipGuard(i, b, zeroForOne, feeOnInput))
  }

  ghost predicate SkipGuard(i: Inner, b: Boundary, zeroForOne: bool, feeOnInput: bool)
    requires Approaching(i, b, zeroForOne) && i.s.dyn.Some?
  {
    hide RaydiumPrice, StepOnce, GroupEdge;
    StepOnceSound(i, b, zeroForOne, feeOnInput);
    var next := StepOnce(i, b, zeroForOne, feeOnInput);
    next.Ok? ==>
      var q := next.value.s.sqrtPrice;
      var closest := ClosestApproach(i.s.dyn.value.indexReference, i.s.spacingIdx, LastGroup(i.s, q, zeroForOne));
      Flat(i, q) <==> GroupRate(i.s, closest) == StepRate(i)
  }

  lemma StaysOnCourse(i: Inner, b: Boundary, zeroForOne: bool, feeOnInput: bool)
    requires Approaching(i, b, zeroForOne) && Tracks(i.s, b, zeroForOne) && FeeBuilt(i.s)
    ensures OnCourse(i, b, zeroForOne, feeOnInput)
  {
    hide RaydiumPrice, StepOnce, Flat, GroupRate, Tracks, FeeBuilt, WithinSpot, GroupEdge, Skips;
    StepOnceSound(i, b, zeroForOne, feeOnInput);
    var next := StepOnce(i, b, zeroForOne, feeOnInput);
    if Skips(i, b, zeroForOne) && next.Ok? {
      SkipIsFlatIff(i, b, next.value.s.sqrtPrice, zeroForOne);
    }
  }

  lemma FeeKept(i: Inner, b: Boundary, zeroForOne: bool, feeOnInput: bool)
    requires Approaching(i, b, zeroForOne) && FeeBuilt(i.s) && StepOnce(i, b, zeroForOne, feeOnInput).Ok?
    ensures FeeBuilt(StepOnce(i, b, zeroForOne, feeOnInput).value.s)
  {
    hide RaydiumPrice, StepOnce, GroupEdge, StepBound;
    StepOnceShape(i, b, zeroForOne, feeOnInput);
  }

  /** Every iteration a walk gets to is on course, and a walk with input left ends in sync. */
  lemma {:induction false} WalkTracks(i: Inner, b: Boundary, zeroForOne: bool, feeOnInput: bool, at: Inner)
    requires Approaching(i, b, zeroForOne) && Tracks(i.s, b, zeroForOne) && FeeBuilt(i.s)
    requires i.s.dyn.Some? ==> OnGrid(b, i.s.tickSpacing)
    ensures WalkReaches(i, at, b, zeroForOne, feeOnInput) ==> OnCourse(at, b, zeroForOne, feeOnInput)
    ensures var walked := StepToBoundary(i, b, zeroForOne, feeOnInput);
            walked.Ok? && walked.value.remaining > 0 ==> Synced(walked.value) && FeeBuilt(walked.value)
    decreases GroupsLeft(i.s, zeroForOne)
  {
    hide RaydiumPrice, StepOnce, Tracks, OnCourse, Synced, GroupsLeft, WithinSpot, GroupEdge, OnGrid;
    StaysOnCourse(i, b, zeroForOne, feeOnInput);
    StepOnceSound(i, b, zeroForOne, feeOnInput);
    var next := StepOnce(i, b, zeroForOne, feeOnInput);
    if next.Ok? {
      FeeKept(i, b, zeroForOne, feeOnInput);
      if !Done(next.value, b, zeroForOne) {
        StepTracks(i, b, zeroForOne, feeOnInput);
        WalkTracks(next.value, b, zeroForOne, feeOnInput, at);
      } else if next.value.s.remaining > 0 {
        StepSyncs(i, b, zeroForOne, feeOnInput);
        SyncIgnoresLiquidity(next.value.s, next.value.liquidityNext);
      }
    }
  }

  lemma SyncIgnoresLiquidity(s: State, liquidity: nat)
    ensures Synced(s.(liquidity := liquidity)) <==> Synced(s)
  {
  }

  /** Fee tracking, over whole runs: from a state in sync, over stops on the tick-spacing grid, every iteration the
      run gets to is on course. */
  lemma {:induction false} RunTracks(s: State, zeroForOne: bool, feeOnInput: bool,
                                     ticks: TickProvider, at: Inner, b: Boundary)
    requires Positioned(s, zeroForOne) && Honours(ticks, zeroForOne) && Synced(s) && FeeBuilt(s)
    requires s.dyn.Some? ==> GridStops(ticks, zeroForOne, s.tickSpacing)
    requires RunReaches(s, at, b, zeroForOne, feeOnInput, ticks)
    ensures OnCourse(at, b, zeroForOne, feeOnInput)
    decreases s.remaining > 0, TicksLeft(s, zeroForOne)
  {
    hide Positioned, StepToBoundary, RaydiumPrice, WalkReaches, OnCourse, Synced, Tracks, WithinSpot, OnGrid;
    var first := ticks(s.tick, zeroForOne).value;
    AtBoundary(s, first, zeroForOne);
    var i := Inner(s, first.unfilled, s.liquidity);
    StepToBoundarySound(i, first, zeroForOne, feeOnInput);
    SyncedTracks(s, first, zeroForOne);
    WalkTracks(i, first, zeroForOne, feeOnInput, at);
    if !(b == first && WalkReaches(i, at, first, zeroForOne, feeOnInput)) {
      RunTracks(StepToBoundary(i, first, zeroForOne, feeOnInput).value, zeroForOne, feeOnInput, ticks, at, b);
    }
  }

  /** The fee fields of a pool are as the program decodes and keeps them. */
  ghost predicate FeeInRange(pool: Pool) {
    pool.dynamicFee.Enabled() ==>
      && pool.tickSpacing < TICK_SPAN - MAX_TICK
      && pool.dynamicFee.volatilityReference < TWO32 && InSpan(pool.dynamicFee.indexReference)
  }

  /** A quote starts in sync. */
  lemma QuoteStartsSynced(pool: Pool, amountIn: nat)
    requires pool.Consistent() && pool.sqrtPrice.Some? && pool.liquidity.Some? && FeeInRange(pool)
    ensures Synced(NewState(pool, amountIn)) && FeeBuilt(NewState(pool, amountIn))
  {
    hide RaydiumPrice;
    if pool.dynamicFee.Enabled() {
      SmallIndex(FloorIndex(pool.tickCurrent, pool.tickSpacing), pool.tickSpacing);
    }
  }

  /** Fee tracking for every quote over stops on the tick-spacing grid: at every iteration it gets to the group
      holds the next price movement, and a skip is flat under the exact guard. */
  lemma QuoteTracks(pool: Pool, zeroForOne: bool, amountIn: nat, ticks: TickProvider)
    requires pool.Consistent() && Honours(ticks, zeroForOne) && amountIn <= U64MAX && FeeInRange(pool)
    requires pool.sqrtPrice.Some? && pool.liquidity.Some?
    requires pool.dynamicFee.Enabled() ==> GridStops(ticks, zeroForOne, pool.tickSpacing)
    ensures var s, feeOnInput := NewState(pool, amountIn), pool.IsFeeOnInput(zeroForOne);
            && Positioned(s, zeroForOne)
            && forall at, b :: RunReaches(s, at, b, zeroForOne, feeOnInput, ticks) ==>
                                 OnCourse(at, b, zeroForOne, feeOnInput)
  {
    hide Positioned, RunReaches, OnCourse, Synced, FeeBuilt;
    var s, feeOnInput := NewState(pool, amountIn), pool.IsFeeOnInput(zeroForOne);
    NewStatePositioned(pool, amountIn, zeroForOne);
    QuoteStartsSynced(pool, amountIn);
    forall at, b | RunReaches(s, at, b, zeroForOne, feeOnInput, ticks) ensures OnCourse(at, b, zeroForOne, feeOnInput) {
      RunTracks(s, zeroForOne, feeOnInput, ticks, at, b);
    }
  }

  // ---- what every iteration of a run charges ----

  /** The same fee settings and reference; only the accumulator moves. */
  predicate SameFee(s: State, n: State) {
    && n.tickSpacing == s.tickSpacing && n.baseFeeRate == s.baseFeeRate && (n.dyn.Some? <==> s.dyn.Some?)
    && (s.dyn.Some? ==> n.dyn.value == s.dyn.value.(accumulator := n.dyn.value.accumulator))
  }

  lemma StepKeepsFee(i: Inner, b: Boundary, zeroForOne: bool, feeOnInput: bool)
    requires Approaching(i, b, zeroForOne) && StepOnce(i, b, zeroForOne, feeOnInput).Ok?
    ensures SameFee(i.s, StepOnce(i, b, zeroForOne, feeOnInput).value.s)
  {
    hide RaydiumPrice, StepOnce, GroupEdge, StepBound, DynamicFee.Rate;
    StepOnceShape(i, b, zeroForOne, feeOnInput);
  }

  lemma {:induction false} WalkKeepsFee(i: Inner, b: Boundary, zeroForOne: bool, feeOnInput: bool, at: Inner)
    requires Approaching(i, b, zeroForOne)
    ensures WalkReaches(i, at, b, zeroForOne, feeOnInput) ==> Approaching(at, b, zeroForOne) && SameFee(i.s, at.s)
    ensures var walked := StepToBoundary(i, b, zeroForOne, feeOnInput);
            walked.Ok? ==> SameFee(i.s, walked.value)
    decreases GroupsLeft(i.s, zeroForOne)
  {
    hide RaydiumPrice, StepOnce, GroupsLeft, WithinSpot, GroupEdge;
    StepOnceSound(i, b, zeroForOne, feeOnInput);
    var next := StepOnce(i, b, zeroForOne, feeOnInput);
    if next.Ok? {
      StepKeepsFee(i, b, zeroForOne, feeOnInput);
      if !Done(next.value, b, zeroForOne) {
        WalkKeepsFee(next.value, b, zeroForOne, feeOnInput, at);
      }
    }
  }

  lemma {:induction false} RunKeepsFee(s: State, zeroForOne: bool, feeOnInput: bool, ticks: TickProvider,
                                       at: Inner, b: Boundary)
    requires Positioned(s, zeroForOne) && Honours(ticks, zeroForOne)
    requires RunReaches(s, at, b, zeroForOne, feeOnInput, ticks)
    ensures Approaching(at, b, zeroForOne) && SameFee(s, at.s)
    decreases s.remaining > 0, TicksLeft(s, zeroForOne)
  {
    hide Positioned, StepToBoundary, RaydiumPrice, WalkReaches, WithinSpot;
    var first := ticks(s.tick, zeroForOne).value;
    AtBoundary(s, first, zeroForOne);
    var i := Inner(s, first.unfilled, s.liquidity);
    StepToBoundarySound(i, first, zeroForOne, feeOnInput);
    WalkKeepsFee(i, first, zeroForOne, feeOnInput, at);
    if !(b == first && WalkReaches(i, at, first, zeroForOne, feeOnInput)) {
      RunKeepsFee(StepToBoundary(i, first, zeroForOne, feeOnInput).value, zeroForOne, feeOnInput, ticks, at, b);
    }
  }

  lemma FreeOfSurcharge(d: DynamicFee, tickSpacing: nat, baseFeeRate: nat)
    requires d.control == 0 && baseFeeRate <= 100_000
    ensures TotalFeeRate(Some(d), tickSpacing, baseFeeRate) == baseFeeRate
  {
    CeilAdjoint(0, 10_000_000_000_000, 0);
  }

  /** A rate is at most 10% and the least whole one that pays the base rate and covers the surcharge of a dynamic fee
      at some distance from its reference. */
  predicate IsRateAt(charged: nat, d: DynamicFee, away: nat, tickSpacing: nat, baseFeeRate: nat, rate: nat) {
    && charged <= 100_000
    && (d.control == 0 && baseFeeRate <= 100_000 ==> charged == baseFeeRate)
    && (away < 0x8000_0000 && d.volatilityReference < TWO32 && rate < 100_000 ==>
          var crossed := Min(d.volatilityReference + away * 10_000, d.maxAccumulator) * tickSpacing;
          (charged <= rate <==> Covers(rate, baseFeeRate, d.control, crossed, 10_000_000_000_000)))
  }

  lemma GroupRateIsLeastCover(s: State, group: int, rate: nat)
    requires s.dyn.Some? && s.baseFeeRate < FEE_DENOMINATOR
    ensures var away := Distance(s.dyn.value.indexReference, group);
            IsRateAt(GroupRate(s, group), s.dyn.value, away, s.tickSpacing, s.baseFeeRate, rate)
  {
    hide TotalFeeRate, Covers, Distance;
    var d := s.dyn.value;
    var charged := d.UpdateAccumulator(group);
    TotalIsLeastCover(charged, s.tickSpacing, s.baseFeeRate, rate);
    if d.control == 0 && s.baseFeeRate <= 100_000 {
      FreeOfSurcharge(charged, s.tickSpacing, s.baseFeeRate);
    }
    if Distance(d.indexReference, group) < 0x8000_0000 && d.volatilityReference < TWO32 {
      AccumulatorIsDistance(d, group);
    }
  }

  lemma PlainRate(i: Inner)
    requires i.s.baseFeeRate < FEE_DENOMINATOR
    ensures i.s.dyn.None? ==> StepRate(i) == i.s.baseFeeRate
  {
  }

  lemma ControlKept(d: DynamicFee, index: int, timestamp: nat)
    ensures d.UpdateReference(index, timestamp).control == d.control
  {
  }

  lemma SameFeeSameRate(s: State, at: Inner, rate: nat)
    requires SameFee(s, at.s) && s.baseFeeRate < FEE_DENOMINATOR
    ensures s.dyn.None? ==> StepRate(at) == s.baseFeeRate
    ensures s.dyn.Some? ==>
              var away := Distance(s.dyn.value.indexReference, at.s.spacingIdx);
              IsRateAt(StepRate(at), s.dyn.value, away, s.tickSpacing, s.baseFeeRate, rate)
  {
    hide GroupRate, StepRate, Covers, Distance;
    if s.dyn.None? {
      PlainRate(at);
    } else {
      OwnRate(at);
      GroupRateIsLeastCover(at.s, at.s.spacingIdx, rate);
    }
  }

  ghost predicate RunReachesFrom(pool: Pool, zeroForOne: bool, amountIn: nat,
                                 ticks: TickProvider, at: Inner, b: Boundary)
    requires pool.Consistent() && Honours(ticks, zeroForOne) && amountIn <= U64MAX
    requires pool.sqrtPrice.Some? && pool.liquidity.Some?
  {
    hide RunReaches, Positioned;
    NewStatePositioned(pool, amountIn, zeroForOne);
    RunReaches(NewState(pool, amountIn), at, b, zeroForOne, pool.IsFeeOnInput(zeroForOne), ticks)
  }

  /** The rate of every iteration a quote gets to: the pool's own fee rate without a dynamic fee, and otherwise the rate
      at the group's distance from the decayed reference. A fee that controls nothing leaves the pool's own rate. */
  lemma QuoteRates(pool: Pool, zeroForOne: bool, amountIn: nat, ticks: TickProvider, at: Inner, b: Boundary, rate: nat)
    requires pool.Consistent() && Honours(ticks, zeroForOne) && amountIn <= U64MAX
    requires pool.sqrtPrice.Some? && pool.liquidity.Some?
    requires RunReachesFrom(pool, zeroForOne, amountIn, ticks, at, b)
    ensures Approaching(at, b, zeroForOne)
    ensures !pool.dynamicFee.Enabled() ==> StepRate(at) == pool.feeRate
    ensures pool.dynamicFee.Enabled() ==>
              var index := FloorIndex(pool.tickCurrent, pool.tickSpacing);
              var d := pool.dynamicFee.UpdateReference(index, pool.blockTimestamp);
              var away := Distance(d.indexReference, at.s.spacingIdx);
              IsRateAt(StepRate(at), d, away, pool.tickSpacing, pool.feeRate, rate)
    ensures pool.dynamicFee.control == 0 && pool.feeRate <= 100_000 ==> StepRate(at) == pool.feeRate
  {
    hide RaydiumPrice, RunReaches, GroupEdge, StepRate, IsRateAt, Distance, DynamicFee.UpdateReference;
    var s := NewState(pool, amountIn);
    NewStatePositioned(pool, amountIn, zeroForOne);
    RunKeepsFee(s, zeroForOne, pool.IsFeeOnInput(zeroForOne), ticks, at, b);
    SameFeeSameRate(s, at, rate);
    if pool.dynamicFee.Enabled() && pool.dynamicFee.control == 0 && pool.feeRate <= 100_000 {
      var index := FloorIndex(pool.tickCurrent, pool.tickSpacing);
      ControlKept(pool.dynamicFee, index, pool.blockTimestamp);
      ControlsNothing(StepRate(at), s.dyn.value, Distance(s.dyn.value.indexReference, at.s.spacingIdx),
                      pool.tickSpacing, pool.feeRate, rate);
    }
  }

  lemma ControlsNothing(charged: nat, d: DynamicFee, away: nat, tickSpacing: nat, baseFeeRate: nat, rate: nat)
    requires IsRateAt(charged, d, away, tickSpacing, baseFeeRate, rate) && d.control == 0 && baseFeeRate <= 100_000
    ensures charged == baseFeeRate
  {
  }

  // ---- a skip that is not flat ----

  /** Liquidity that an input of 10_000, less one in fee, moves the price by one unit. */
  const ONE_UNIT: nat := 9_999 * Q64

  /** Inside its filter period, one group below the reference and at the cap, about to move up through it. */
  const RETURNING: Pool :=
    Pool(Some(Q64), Some(ONE_UNIT), -1, 10, 0, 0, 0, DynamicFee(1, 0, 0, 100_000, 10_000, 0, 0, 0, 0), 0)

  lemma AroundZero()
    ensures RaydiumPrice(-1) < RaydiumPrice(0) == Q64 && Q64 + 1 < RaydiumPrice(10)
    ensures RETURNING.Consistent() && FeeInRange(RETURNING)
  {
    TickZero();
    hide RaydiumPrice;
    PriceInjective(-1, 0);
    PriceInjective(0, 1);
    PriceInjective(1, 10);
    RaydiumPriceBounds();
    PriceInjective(0, MAX_TICK);
    PriceInjective(MIN_TICK, 0);
  }

  /** The surcharge of an accumulator at the cap, and of none. */
  lemma ReturningSurcharge(d: DynamicFee)
    requires d.control == 100_000
    ensures d.(accumulator := 10_000).Rate(10) == 100 && d.(accumulator := 0).Rate(10) == 0
  {
    hide CeilDiv;
    CeilAdjoint(100_000 * ((10_000 * 10) * (10_000 * 10)), 10_000_000_000_000, 100);
    CeilAdjoint(100_000 * ((10_000 * 10) * (10_000 * 10)), 10_000_000_000_000, 99);
    CeilAdjoint(0, 10_000_000_000_000, 0);
  }

  lemma ReturningRates(s: State)
    requires s == NewState(RETURNING, 10_000)
    ensures s == State(10_000, 0, Q64, ONE_UNIT, -1, 10, 0, -1, Some(RETURNING.dynamicFee))
    ensures s.Charged().dyn.value.accumulator == s.dyn.value.maxAccumulator
    ensures GroupRate(s, -1) == 100 && GroupRate(s, 0) == 0
  {
    hide DynamicFee.Rate;
    ReturningSurcharge(RETURNING.dynamicFee);
    AccumulatorIsDistance(RETURNING.dynamicFee, -1);
    AccumulatorIsDistance(RETURNING.dynamicFee, 0);
  }

  /** What 10_000 at a rate of 100 moves the price by. */
  lemma ReturningMove(target: nat)
    requires Q64 + 1 < target
    ensures NetInput(10_000, 100, true) == 9_999 && NextSqrtPrice(Q64, ONE_UNIT, 9_999, false) == Q64 + 1
    ensures NetInput(10_000, 100, true) < InputDelta(Q64, target, ONE_UNIT, false)
  {
    hide CeilDiv, FloorDiv;
    FloorUnique(9_999, 10_000 * (FEE_DENOMINATOR - 100), FEE_DENOMINATOR);
    FloorUnique(1, 9_999 * Q64, ONE_UNIT);
    MulMono(2, target - Q64, ONE_UNIT);
    CeilAdjoint(ONE_UNIT * (target - Q64), Q64, 9_999);
  }

  /** The first iteration of the quote: on track, saturated, and charged 100. */
  lemma ReturningStart(b: Boundary)
    requires 10 <= b.tickIndex <= MAX_TICK && b.unfilled <= U64MAX
    ensures RETURNING.Consistent() && FeeInRange(RETURNING)
    ensures var s := NewState(RETURNING, 10_000);
            var i := Inner(s, b.unfilled, s.liquidity);
            && Approaching(i, b, false) && Tracks(s, b, false) && FeeBuilt(s) && Skips(i, b, false)
            && StepBound(i, RaydiumPrice(b.tickIndex), false) == Bound(true, RaydiumPrice(b.tickIndex), None)
            && StepRate(i) == 100 && Q64 + 1 < RaydiumPrice(b.tickIndex)
  {
    hide RaydiumPrice, GroupRate, StepRate, GroupEdge, NearEdge;
    AroundZero();
    var s := NewState(RETURNING, 10_000);
    ReturningRates(s);
    NewStatePositioned(RETURNING, 10_000, false);
    QuoteStartsSynced(RETURNING, 10_000);
    SyncedTracks(s, b, false);
    AtBoundary(s, b, false);
    OwnRate(Inner(s, b.unfilled, s.liquidity));
    PriceInjective(10, b.tickIndex);
  }

  /** It moves the price by one unit. */
  lemma ReturningStep(b: Boundary)
    requires 10 <= b.tickIndex <= MAX_TICK && b.unfilled <= U64MAX
    requires Q64 + 1 < RaydiumPrice(b.tickIndex)
    ensures var s := NewState(RETURNING, 10_000).Charged();
            var moved := MoveTo(s, RaydiumPrice(b.tickIndex), 100, false, true);
            moved.Ok? && moved.value.next == Q64 + 1
  {
    hide RaydiumPrice, ComputeSwapStep, NextSqrtPrice, InputDelta, OutputDelta, NetInput, NetOutput;
    var target := RaydiumPrice(b.tickIndex);
    ReturningMove(target);
    StepStops(Q64, target, ONE_UNIT, 10_000, 100, false, true);
    StepSound(Q64, target, ONE_UNIT, 10_000, 100, false, true);
    var step := ComputeSwapStep(Q64, target, ONE_UNIT, 10_000, 100, false, true);
    CurveWithinSpot(Q64, Q64 + 1, ONE_UNIT, false, step.amountOut, step.Consumed(true));
  }

  /** What an iteration needs to end short of its boundary. */
  lemma ShortStep(i: Inner, b: Boundary, tickPrice: nat, next: nat, zeroForOne: bool, feeOnInput: bool)
    requires Approaching(i, b, zeroForOne) && 0 < tickPrice == RaydiumPrice(b.tickIndex) && i.s.sqrtPrice > 0
    requires StepBound(i, tickPrice, zeroForOne).price == tickPrice != next
    requires var moved := MoveTo(i.s.Charged(), tickPrice, StepRate(i), zeroForOne, feeOnInput);
             moved.Ok? && moved.value.next == next
    ensures var n := StepOnce(i, b, zeroForOne, feeOnInput);
            n.Ok? && n.value.s.sqrtPrice == next
  {
    hide RaydiumPrice, MoveTo, WithinSpot, StepRate, StepBound, Settle, AdvanceIndex, LandedTick;
    TargetIsTick(b.tickIndex, zeroForOne);
    BoundBetween(i, b, zeroForOne);
    var bound, rate := StepBound(i, RaydiumPrice(b.tickIndex), zeroForOne), StepRate(i);
    MoveSound(i.s.Charged(), bound.price, rate, zeroForOne, feeOnInput);
    var moved := MoveTo(i.s.Charged(), bound.price, rate, zeroForOne, feeOnInput).value;
    SettleShort(i, moved, b, bound, rate, zeroForOne, feeOnInput);
    SettleKeepsShape(i, moved, b, bound, rate, zeroForOne, feeOnInput);
    var settled := Settle(i, moved, b, bound, rate, zeroForOne, feeOnInput).value.s;
    AdvanceKeeps(settled.(sqrtPrice := next), zeroForOne, bound.skipped, RaydiumPrice(b.tickIndex), b.tickIndex);
  }

  /** A skip back toward the reference that is not flat, at the first iteration of a quote: it is charged 100 for a
      movement through a group whose own rate is 0. */
  lemma SkipBackChangesRate(b: Boundary)
    requires 10 <= b.tickIndex <= MAX_TICK && b.unfilled <= U64MAX
    ensures RETURNING.Consistent() && FeeInRange(RETURNING)
    ensures var s := NewState(RETURNING, 10_000);
            var i := Inner(s, b.unfilled, s.liquidity);
            && Approaching(i, b, false) && Tracks(s, b, false) && FeeBuilt(s) && Skips(i, b, false)
            && var next := StepOnce(i, b, false, true);
            && next.Ok? && next.value.s.sqrtPrice == Q64 + 1
            && StepRate(i) == 100 && GroupRate(s, 0) == 0 && Crosses(s.sqrtPrice, Q64 + 1, 0, s.tickSpacing)
            && !Flat(i, Q64 + 1)
  {
    hide RaydiumPrice, MoveTo, GroupRate, StepRate, StepBound, StepOnce, Tracks, FeeBuilt, Skips, FeeInRange,
      Approaching, NewState;
    AroundZero();
    ReturningStart(b);
    ReturningStep(b);
    var s := NewState(RETURNING, 10_000);
    ReturningRates(s);
    var i := Inner(s, b.unfilled, s.liquidity);
    ShortStep(i, b, RaydiumPrice(b.tickIndex), Q64 + 1, false, true);
    assert Crosses(s.sqrtPrice, Q64 + 1, 0, s.tickSpacing);
  }
}
