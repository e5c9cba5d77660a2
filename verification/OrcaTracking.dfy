/** The adaptive fee follows the price: throughout every run the manager's tick group is the one the
    next piece of price movement lies in, and a step that skips over several groups only crosses groups
    that all carry the rate it charges. */
module OrcaTracking {
  import opened Rounding
  import opened Wrappers
  import opened MachineIntegers
  import opened TickTables
  import opened TickMath
  import opened OrcaMath
  import opened OrcaFee
  import opened OrcaRun
  import R = RaydiumMath

  // ---- the invariant ----

  /** The edge of the current group on the side the price comes from. */
  function NearEdge(f: Fee): (tick: int)
    ensures InRange(tick)
  {
    ClampTick(if f.aToB then f.group * f.constants.groupSize + f.constants.groupSize
              else f.group * f.constants.groupSize)
  }

  /** The price lies in the manager's group: past its near edge and not past its far edge. */
  ghost predicate GroupHolds(f: Fee, price: nat) {
    R.Ahead(OrcaPrice(NearEdge(f)), price, f.aToB) && R.Ahead(price, OrcaPrice(f.GroupEdge()), f.aToB)
  }

  /** Along a walk: the group holds the price, and the boundary is not behind the group. */
  ghost predicate Tracks(s: State, b: Boundary) {
    s.fee.adaptive ==>
      var low := s.fee.group * s.fee.constants.groupSize;
      && GroupHolds(s.fee, s.sqrtPrice)
      && (if s.fee.aToB then low <= MAX_TICK && b.tickIndex < low + s.fee.constants.groupSize
          else MIN_TICK <= low + s.fee.constants.groupSize && low < b.tickIndex)
  }

  /** Between walks: the group is the current tick's. */
  ghost predicate Synced(s: State) {
    s.fee.adaptive ==> s.fee.constants.groupSize > 0 && s.fee.group == FloorIndex(s.tick, s.fee.constants.groupSize)
  }

  predicate Aligned(b: Boundary, groupSize: nat)
    requires groupSize > 0
  {
    TruncMod(b.tickIndex, groupSize) == 0
  }

  lemma OnTrack(s: State, b: Boundary)
    requires s.fee.adaptive && Tracks(s, b)
    ensures GroupHolds(s.fee, s.sqrtPrice)
    ensures var low := s.fee.group * s.fee.constants.groupSize;
            if s.fee.aToB then low <= MAX_TICK && b.tickIndex < low + s.fee.constants.groupSize
            else MIN_TICK <= low + s.fee.constants.groupSize && low < b.tickIndex
  {
  }

  /** A walk that starts in sync starts on track. */
  lemma SyncedTracks(s: State, b: Boundary, aToB: bool)
    requires Positioned(s, aToB) && StopFrom(s.tick, b, aToB) && Synced(s)
    ensures Tracks(s, b)
  {
    hide OrcaPrice;
    if s.fee.adaptive {
      OrcaPriceBounds();
      var edge := NearEdge(s.fee);
      if s.fee.aToB && s.tick + 1 <= edge {
        PriceOrder(s.tick + 1, edge);
      } else if !s.fee.aToB && edge <= s.tick {
        PriceOrder(edge, s.tick);
      }
    }
  }

  /** When input is left a step ended on its bound, and the manager advanced from there. */
  lemma StepOnceShape(s: State, b: Boundary, aToB: bool)
    requires Approaching(s, b, aToB) && StepOnce(s, b, aToB).Ok?
    ensures var n := StepOnce(s, b, aToB).value;
            var (bounded, skip) := s.fee.Charged().BoundedTarget(OrcaPrice(b.tickIndex), s.liquidity);
            && MIN_SQRT_PRICE <= n.sqrtPrice <= ORCA_MAX_SQRT_PRICE
            && (s.fee.adaptive ==> s.fee.constants.groupSize > 0)
            && n.fee == Advance(s.fee.Charged(), skip, n.sqrtPrice, b)
            && (n.remaining > 0 ==> n.sqrtPrice == bounded)
  {
    hide OrcaPrice, ComputeSwapStep, Arrive, Fee.BoundedTarget, Fee.GroupEdge, R.WithinSpot, Fee.LastTraversed;
    TargetIsTick(b.tickIndex, aToB);
    BoundBetween(s, b, aToB);
    var fee := s.fee.Charged();
    var (bounded, skip) := fee.BoundedTarget(OrcaPrice(b.tickIndex), s.liquidity);
    StepSound(s, bounded, fee.Rate(), aToB);
    var step := ComputeSwapStep(s.remaining, fee.Rate(), s.liquidity, s.sqrtPrice, bounded, aToB).value;
    ArriveSound(Book(s.(fee := fee), step).value, step.nextPrice, b, aToB);
  }

  lemma PriceInjective(t: int, u: int)
    requires InSpan(t) && InSpan(u)
    ensures OrcaPrice(t) < OrcaPrice(u) <==> t < u
    ensures OrcaPrice(t) == OrcaPrice(u) <==> t == u
  {
    hide OrcaPrice;
    if t < u {
      OrcaPriceIncreasing(t, u);
    } else if u < t {
      OrcaPriceIncreasing(u, t);
    }
  }

  lemma TickAtExact(t: int)
    requires InRange(t)
    ensures OrcaPrice(t) >= MIN_SQRT_PRICE && OrcaTickAt(OrcaPrice(t)) == t
  {
    hide OrcaPrice;
    TargetIsTick(t, true);
    var at := OrcaTickAt(OrcaPrice(t));
    PriceInjective(t, at);
    if at < t {
      PriceOrder(at + 1, t);
    }
  }

  // ---- a step that ends on a group edge ----

  /** Ending on the far edge of the group, the next group holds the price. */
  lemma NextGroupHolds(f: Fee, price: nat)
    requires f.constants.groupSize > 0 && price == OrcaPrice(f.GroupEdge())
    requires R.Ahead(price, OrcaPrice(f.Shift().GroupEdge()), f.aToB)
    ensures GroupHolds(f.Shift(), price)
  {
    hide OrcaPrice;
    Distribute(f.constants.groupSize, f.group, 1);
  }

  /** Reaching the core range by a skip, the manager sits on the outermost group of the range. */
  lemma CoreEntry(f: Fee, b: Boundary)
    requires f.adaptive && f.constants.groupSize > 0 && CoreWellFormed(f) && InRange(b.tickIndex)
    requires if f.aToB then f.coreUpper.Some? && f.group > f.coreUpper.value.index
             else f.coreLower.Some? && f.group < f.coreLower.value.index
    requires var edge := if f.aToB then f.coreUpper.value.sqrtPrice else f.coreLower.value.sqrtPrice;
             edge != OrcaPrice(b.tickIndex) && MIN_SQRT_PRICE <= edge
    ensures var edge := if f.aToB then f.coreUpper.value.sqrtPrice else f.coreLower.value.sqrtPrice;
            var after := f.AdvanceAfterSkip(edge, OrcaPrice(b.tickIndex), b.tickIndex);
            && after == f.(group := after.group, variables := after.variables)
            && after.group == if f.aToB then f.coreUpper.value.index else f.coreLower.value.index
  {
    hide OrcaPrice;
    var size := f.constants.groupSize;
    if f.aToB {
      var index := f.coreUpper.value.index + 1;
      Distribute(size, index, 1);
      Distribute(size, f.coreUpper.value.index, 1);
      TickAtExact(index * size);
      MultipleGroup(index, size, index * size);
    } else {
      var index := f.coreLower.value.index;
      TickAtExact(index * size);
      MultipleGroup(index, size, index * size);
    }
  }

  /** Short of the boundary, every iteration stays on track. */
  lemma StepTracks(s: State, b: Boundary, aToB: bool)
    requires Approaching(s, b, aToB) && Tracks(s, b)
    requires StepOnce(s, b, aToB).Ok? && !Done(StepOnce(s, b, aToB).value, b, aToB)
    ensures Tracks(StepOnce(s, b, aToB).value, b)
  {
    hide OrcaPrice, StepOnce, Fee.GroupEdge, Fee.LastTraversed, GroupHolds, Tracks, R.WithinSpot;
    StepOnceShape(s, b, aToB);
    StepOnceSound(s, b, aToB);
    TargetIsTick(b.tickIndex, aToB);
    var n := StepOnce(s, b, aToB).value;
    if s.fee.adaptive {
      var f := s.fee.Charged();
      SameEdge(s.fee, f);
      BoundBetween(s, b, aToB);
      if f.BoundedTarget(OrcaPrice(b.tickIndex), s.liquidity).1 {
        CoreEntry(f, b);
        CoreEntryTracks(f, n, b);
      } else {
        assert n.fee == f.Shift();
        OnTrack(s, b);
        EdgeStepTracks(f, n, b);
      }
    }
  }

  lemma EdgeStepTracks(f: Fee, n: State, b: Boundary)
    requires f.adaptive && f.constants.groupSize > 0 && InRange(b.tickIndex)
    requires n.fee == f.Shift() && n.sqrtPrice == OrcaPrice(f.GroupEdge())
    requires R.Ahead(n.sqrtPrice, OrcaPrice(b.tickIndex), f.aToB) && n.sqrtPrice != OrcaPrice(b.tickIndex)
    requires FeePositioned(n.fee, n.sqrtPrice)
    requires if f.aToB then f.group * f.constants.groupSize <= MAX_TICK
             else MIN_TICK <= f.group * f.constants.groupSize + f.constants.groupSize
    ensures Tracks(n, b)
  {
    hide OrcaPrice, Fee.GroupEdge;
    PriceInjective(b.tickIndex, f.GroupEdge());
    PriceInjective(f.GroupEdge(), b.tickIndex);
    NextGroupHolds(f, n.sqrtPrice);
    EdgeIsUnclamped(f, b);
    Distribute(f.constants.groupSize, f.group, 1);
  }

  lemma CoreEntryTracks(f: Fee, n: State, b: Boundary)
    requires f.adaptive && f.constants.groupSize > 0 && CoreWellFormed(f) && InRange(b.tickIndex)
    requires n.fee == f.(group := n.fee.group, variables := n.fee.variables)
    requires FeePositioned(n.fee, n.sqrtPrice) && MIN_SQRT_PRICE <= n.sqrtPrice <= ORCA_MAX_SQRT_PRICE
    requires R.Ahead(n.sqrtPrice, OrcaPrice(b.tickIndex), f.aToB) && n.sqrtPrice != OrcaPrice(b.tickIndex)
    requires if f.aToB then f.coreUpper.Some? && n.sqrtPrice == f.coreUpper.value.sqrtPrice
                            && n.fee.group == f.coreUpper.value.index
             else f.coreLower.Some? && n.sqrtPrice == f.coreLower.value.sqrtPrice
                  && n.fee.group == f.coreLower.value.index
    ensures Tracks(n, b)
  {
    hide OrcaPrice, Fee.GroupEdge;
    var size := f.constants.groupSize;
    if f.aToB {
      PriceInjective(b.tickIndex, f.coreUpper.value.index * size + size);
    } else {
      PriceInjective(f.coreLower.value.index * size, b.tickIndex);
    }
  }

  /** A far edge strictly before the boundary lies inside the tick range, so clamping left it alone. */
  lemma EdgeIsUnclamped(f: Fee, b: Boundary)
    requires InRange(b.tickIndex)
    requires if f.aToB then b.tickIndex < f.GroupEdge() else f.GroupEdge() < b.tickIndex
    ensures f.aToB ==> f.GroupEdge() <= f.group * f.constants.groupSize
    ensures !f.aToB ==> f.group * f.constants.groupSize + f.constants.groupSize <= f.GroupEdge()
  {
  }

  // ---- reaching an aligned boundary ----

  /** A walk that reaches an aligned boundary with input left ends in sync with the tick it crossed to. */
  lemma StepSyncs(s: State, b: Boundary, aToB: bool)
    requires Approaching(s, b, aToB) && Tracks(s, b)
    requires StepOnce(s, b, aToB).Ok?
    requires var n := StepOnce(s, b, aToB).value; Done(n, b, aToB) && n.remaining > 0
    requires s.fee.adaptive ==> s.fee.constants.groupSize > 0 && Aligned(b, s.fee.constants.groupSize)
    ensures Synced(StepOnce(s, b, aToB).value)
  {
    hide OrcaPrice, StepOnce, Fee.GroupEdge, Fee.LastTraversed, GroupHolds, R.WithinSpot, FeePositioned;
    StepOnceShape(s, b, aToB);
    StepOnceSound(s, b, aToB);
    TargetIsTick(b.tickIndex, aToB);
    if s.fee.adaptive {
      var f := s.fee.Charged();
      var (bounded, skip) := f.BoundedTarget(OrcaPrice(b.tickIndex), s.liquidity);
      var index := FloorIndex(b.tickIndex, f.constants.groupSize);
      NoRemainder(b.tickIndex, f.constants.groupSize);
      MultipleGroup(index, f.constants.groupSize, b.tickIndex);
      if skip {
        SkipToAligned(f, b, index);
      } else {
        StepToAligned(f, b, index);
      }
    }
  }

  /** After a skip that reached an aligned boundary, the group is the one just past it. */
  lemma SkipToAligned(f: Fee, b: Boundary, index: int)
    requires f.adaptive && f.constants.groupSize > 0 && b.tickIndex == index * f.constants.groupSize
    requires InRange(b.tickIndex)
    requires if f.aToB then b.tickIndex < f.group * f.constants.groupSize + f.constants.groupSize
             else f.group * f.constants.groupSize < b.tickIndex
    requires OrcaPrice(b.tickIndex) >= MIN_SQRT_PRICE
    ensures f.AdvanceAfterSkip(OrcaPrice(b.tickIndex), OrcaPrice(b.tickIndex), b.tickIndex).group
         == if f.aToB then index - 1 else index
  {
    hide OrcaPrice;
    var size := f.constants.groupSize;
    MultipleGroup(index, size, b.tickIndex);
    if f.aToB {
      MultipleOrder(index, f.group, size);
    } else {
      StrictMultiple(f.group, index, size);
    }
  }

  /** A bounded step that reached an aligned boundary reached it on the group's far edge. */
  lemma StepToAligned(f: Fee, b: Boundary, index: int)
    requires f.adaptive && f.constants.groupSize > 0 && b.tickIndex == index * f.constants.groupSize
    requires InRange(b.tickIndex)
    requires if f.aToB then b.tickIndex < f.group * f.constants.groupSize + f.constants.groupSize
             else f.group * f.constants.groupSize < b.tickIndex
    requires if f.aToB then f.group * f.constants.groupSize <= MAX_TICK
             else MIN_TICK <= f.group * f.constants.groupSize + f.constants.groupSize
    requires R.Ahead(OrcaPrice(b.tickIndex), OrcaPrice(f.GroupEdge()), f.aToB)
    ensures f.Shift().group == if f.aToB then index - 1 else index
  {
    hide OrcaPrice;
    var size := f.constants.groupSize;
    PriceInjective(b.tickIndex, f.GroupEdge());
    PriceInjective(f.GroupEdge(), b.tickIndex);
    if f.aToB {
      MultipleOrder(index, f.group, size);
      MultipleOrder(f.group, index, size);
    } else {
      StrictMultiple(f.group, index, size);
      Distribute(size, f.group, 1);
      MultipleOrder(index, f.group + 1, size);
    }
  }

  // ---- skipped groups carry one rate ----

  /** The core range as NewFee builds it, over a reference no larger than the cap. */
  ghost predicate CoreBuilt(f: Fee) {
    f.adaptive ==>
      && f.variables.volatilityReference <= f.constants.maxAccumulator < TWO32
      && GroupInRange(f.variables.groupReference, f.constants.groupSize)
      && 0 < f.constants.groupSize < TICK_SPAN - MAX_TICK
      && (f.coreLower.Some? ==>
            f.coreLower.value.index == f.variables.groupReference - MaxDelta(f.constants, f.variables))
      && (f.coreUpper.Some? ==>
            f.coreUpper.value.index == f.variables.groupReference + MaxDelta(f.constants, f.variables))
  }

  /** The rate a step through a group is charged. */
  function GroupRate(f: Fee, group: int): nat
    requires f.staticRate < FEE_RATE_MUL
  {
    f.(group := group).Charged().Rate()
  }

  /** From MaxDelta groups away on, the accumulator sits at its cap. */
  lemma Saturated(f: Fee, h: int)
    requires f.adaptive && CoreBuilt(f) && InSpan(h * f.constants.groupSize)
    requires var delta := MaxDelta(f.constants, f.variables);
             h <= f.variables.groupReference - delta || f.variables.groupReference + delta <= h
    ensures f.variables.AccumulatorAt(h, f.constants) == f.constants.maxAccumulator
  {
    hide Variables.AccumulatorAt, MaxDelta;
    SmallIndex(h, f.constants.groupSize);
    SmallIndex(f.variables.groupReference, f.constants.groupSize);
    SaturatedAt(f.variables, f.constants, h);
  }

  lemma SaturatedAt(v: Variables, c: Constants, h: int)
    requires v.volatilityReference <= c.maxAccumulator < TWO32
    requires -0x20_0000 < v.groupReference < 0x20_0000 && -0x20_0000 < h < 0x20_0000
    requires MaxDelta(c, v) <= Magnitude(v.groupReference - h)
    ensures v.AccumulatorAt(h, c) == c.maxAccumulator
  {
    hide Int32, Uint32, Uint64;
    DistanceExact(v.groupReference, h);
    CapReached(c.maxAccumulator, v.volatilityReference, Magnitude(v.groupReference - h));
  }

  /** Within the tick range the 32-bit distance between two groups is the true one. */
  lemma DistanceExact(a: int, b: int)
    requires -0x20_0000 < a < 0x20_0000 && -0x20_0000 < b < 0x20_0000
    ensures var delta := Int32(a - b);
            Uint32(if delta < 0 then Int32(-delta) else delta) == Magnitude(a - b) < 0x40_0000
  {
  }

  lemma CapReached(cap: nat, reference: nat, distance: nat)
    requires reference <= cap < TWO32 && distance < 0x40_0000
    requires CeilDiv(Uint32(cap - reference), ACCUMULATOR_SCALE) <= distance
    ensures Uint64(reference + distance * ACCUMULATOR_SCALE) >= cap
  {
    CeilAdjoint(cap - reference, ACCUMULATOR_SCALE, distance);
  }

  /** With no control factor there is no surcharge at all. */
  lemma NoControlNoSurcharge(c: Constants, accumulator: nat)
    requires c.controlFactor == 0
    ensures AdaptiveFeeRate(c, accumulator) == 0
  {
    CeilAdjoint(0, CONTROL_DENOMINATOR * ACCUMULATOR_SCALE * ACCUMULATOR_SCALE, 0);
  }

  /** The price movement between p and q touches the inside of group h. */
  ghost predicate Crosses(p: nat, q: nat, h: int, groupSize: nat) {
    && InSpan(h * groupSize) && InSpan(h * groupSize + groupSize)
    && OrcaPrice(h * groupSize) < R.Max(p, q) && R.Min(p, q) < OrcaPrice(h * groupSize + groupSize)
  }

  /** A skipped step with liquidity in range charges every group it crosses that group's own rate. */
  ghost predicate FlatSkip(s: State, b: Boundary, aToB: bool)
    requires Approaching(s, b, aToB)
  {
    var skip := s.fee.Charged().BoundedTarget(OrcaPrice(b.tickIndex), s.liquidity).1;
    var next := StepOnce(s, b, aToB);
    s.fee.adaptive && skip && s.liquidity > 0 && next.Ok? ==>
      forall h :: Crosses(s.sqrtPrice, next.value.sqrtPrice, h, s.fee.constants.groupSize) ==>
                    GroupRate(s.fee, h) == s.fee.Charged().Rate()
  }

  predicate BelowCore(f: Fee) {
    f.coreLower.Some? && f.group < f.coreLower.value.index
  }

  predicate AboveCore(f: Fee) {
    f.coreUpper.Some? && f.group > f.coreUpper.value.index
  }

  /** Outside the core range a crossed group is on the same side of the range as the current one. */
  lemma CrossedSide(s: State, b: Boundary, aToB: bool, next: nat, h: int)
    requires Approaching(s, b, aToB) && Tracks(s, b) && s.fee.adaptive && CoreBuilt(s.fee)
    requires R.Ahead(s.sqrtPrice, next, aToB)
    requires Crosses(s.sqrtPrice, next, h, s.fee.constants.groupSize)
    requires R.Ahead(next, s.fee.BoundedTarget(OrcaPrice(b.tickIndex), s.liquidity).0, aToB)
    requires s.liquidity > 0 && s.fee.constants.controlFactor != 0
    ensures BelowCore(s.fee) ==> h < s.fee.coreLower.value.index
    ensures !BelowCore(s.fee) && AboveCore(s.fee) ==> s.fee.coreUpper.value.index < h
  {
    hide OrcaPrice, Fee.GroupEdge;
    var f := s.fee;
    var size := f.constants.groupSize;
    OnTrack(s, b);
    if BelowCore(f) {
      if aToB {
        NearGroup(f, h);
      } else {
        PriceInjective(h * size, f.coreLower.value.index * size);
        StrictMultiple(h, f.coreLower.value.index, size);
      }
    } else if AboveCore(f) {
      if aToB {
        PriceInjective(f.coreUpper.value.index * size + size, h * size + size);
        StrictMultiple(f.coreUpper.value.index, h, size);
      } else {
        NearGroup(f, h);
      }
    }
  }

  /** A crossed group is not behind the current one. */
  lemma NearGroup(f: Fee, h: int)
    requires 0 < f.constants.groupSize < TICK_SPAN - MAX_TICK
    requires InSpan(h * f.constants.groupSize) && InSpan(h * f.constants.groupSize + f.constants.groupSize)
    requires if f.aToB then OrcaPrice(h * f.constants.groupSize) < OrcaPrice(NearEdge(f))
             else OrcaPrice(NearEdge(f)) < OrcaPrice(h * f.constants.groupSize + f.constants.groupSize)
    requires if f.aToB then MIN_TICK <= f.group * f.constants.groupSize + f.constants.groupSize
             else f.group * f.constants.groupSize <= MAX_TICK
    ensures if f.aToB then h <= f.group else f.group <= h
  {
    hide OrcaPrice;
    var size := f.constants.groupSize;
    if f.aToB {
      PriceInjective(h * size, NearEdge(f));
      MultipleOrder(h, f.group, size);
    } else {
      PriceInjective(NearEdge(f), h * size + size);
      MultipleOrder(f.group, h, size);
    }
  }

  /** Every skipped step is flat: no surcharge at all, or a saturated accumulator in each group crossed. */
  lemma SkipIsFlat(s: State, b: Boundary, aToB: bool)
    requires Approaching(s, b, aToB) && Tracks(s, b) && CoreBuilt(s.fee)
    ensures FlatSkip(s, b, aToB)
  {
    hide OrcaPrice, StepOnce, Fee.GroupEdge, Tracks, R.WithinSpot, CoreWellFormed;
    var f := s.fee;
    var (bounded, skip) := f.Charged().BoundedTarget(OrcaPrice(b.tickIndex), s.liquidity);
    var next := StepOnce(s, b, aToB);
    if f.adaptive && skip && s.liquidity > 0 && next.Ok? {
      SameEdge(f, f.Charged());
      StepEndsByBound(s, b, aToB);
      StepOnceSound(s, b, aToB);
      forall h | Crosses(s.sqrtPrice, next.value.sqrtPrice, h, f.constants.groupSize)
        ensures GroupRate(f, h) == f.Charged().Rate()
      {
        if f.constants.controlFactor == 0 {
          NoControlNoSurcharge(f.constants, f.variables.AccumulatorAt(h, f.constants));
          NoControlNoSurcharge(f.constants, f.variables.AccumulatorAt(f.group, f.constants));
        } else {
          CrossedSide(s, b, aToB, next.value.sqrtPrice, h);
          GroupInSpan(s, b);
          Saturated(f, h);
          Saturated(f, f.group);
        }
      }
    }
  }

  /** A step ends at or before its bound. */
  lemma StepEndsByBound(s: State, b: Boundary, aToB: bool)
    requires Approaching(s, b, aToB) && StepOnce(s, b, aToB).Ok?
    ensures R.Ahead(StepOnce(s, b, aToB).value.sqrtPrice,
                    s.fee.BoundedTarget(OrcaPrice(b.tickIndex), s.liquidity).0, aToB)
  {
    hide OrcaPrice, ComputeSwapStep, Fee.GroupEdge, Arrive, Advance, R.WithinSpot;
    TargetIsTick(b.tickIndex, aToB);
    BoundBetween(s, b, aToB);
    SameEdge(s.fee, s.fee.Charged());
    StepSound(s, s.fee.Charged().BoundedTarget(OrcaPrice(b.tickIndex), s.liquidity).0, s.fee.Charged().Rate(), aToB);
  }

  /** The current group starts within the span of the tables. */
  lemma GroupInSpan(s: State, b: Boundary)
    requires s.fee.adaptive && Tracks(s, b) && InRange(b.tickIndex) && CoreBuilt(s.fee)
    ensures InSpan(s.fee.group * s.fee.constants.groupSize)
  {
    OnTrack(s, b);
  }

  // ---- whole runs ----

  /** Every stop is aligned to the tick groups, except possibly the run's last. */
  ghost predicate AlignedUntilLast(ticks: TickProvider, aToB: bool, groupSize: nat)
    requires groupSize > 0
  {
    forall t: int :: ticks(t, aToB).Some? ==>
                       var b := ticks(t, aToB).value;
                       Aligned(b, groupSize) || OrcaPrice(b.tickIndex) == Limit(aToB)
                       || ticks(if aToB then b.tickIndex - 1 else b.tickIndex, aToB).None?
  }

  /** The states at the start of each step of a walk. */
  function WalkTrail(s: State, b: Boundary, aToB: bool): seq<State>
    requires Approaching(s, b, aToB)
    decreases GroupsLeft(s.fee)
  {
    hide Approaching, StepOnce, Done, GroupsLeft, OrcaPrice;
    var next := StepOnce(s, b, aToB);
    StepOnceSound(s, b, aToB);
    [s] + if next.Err? || Done(next.value, b, aToB) then [] else WalkTrail(next.value, b, aToB)
  }

  /** On course: the group holds the price, and a skipped step is flat. */
  ghost predicate OnCourse(s: State, b: Boundary, aToB: bool) {
    Approaching(s, b, aToB) && Tracks(s, b) && FlatSkip(s, b, aToB)
  }

  lemma CoreKept(f: Fee, g: Fee)
    requires CoreBuilt(f) && g == f.(group := g.group, variables := g.variables)
    requires g.variables == f.variables.(accumulator := g.variables.accumulator)
    ensures CoreBuilt(g)
  {
    hide MaxDelta, GroupInRange;
    DeltaIgnoresAccumulator(f, g);
  }

  lemma DeltaIgnoresAccumulator(f: Fee, g: Fee)
    requires g.constants == f.constants && g.variables == f.variables.(accumulator := g.variables.accumulator)
    ensures MaxDelta(g.constants, g.variables) == MaxDelta(f.constants, f.variables)
  {
  }

  lemma {:induction false} WalkTracks(s: State, b: Boundary, aToB: bool)
    requires Approaching(s, b, aToB) && Tracks(s, b) && CoreBuilt(s.fee)
    ensures forall k :: 0 <= k < |WalkTrail(s, b, aToB)| ==> OnCourse(WalkTrail(s, b, aToB)[k], b, aToB)
    ensures var walked := StepToBoundary(s, b, aToB);
            walked.Ok? ==>
              && CoreBuilt(walked.value.fee) && walked.value.fee.adaptive == s.fee.adaptive
              && walked.value.fee.constants == s.fee.constants
              && (walked.value.remaining > 0 && (s.fee.adaptive ==> Aligned(b, s.fee.constants.groupSize)) ==>
                    Synced(walked.value))
    decreases GroupsLeft(s.fee)
  {
    hide StepOnce, OrcaPrice, R.WithinSpot, GroupsLeft, Tracks, CoreBuilt, FlatSkip, Synced;
    SkipIsFlat(s, b, aToB);
    GroupSizePositive(s, b, aToB);
    StepOnceSound(s, b, aToB);
    var next := StepOnce(s, b, aToB);
    if next.Ok? {
      CoreKept(s.fee, next.value.fee);
      if !Done(next.value, b, aToB) {
        StepTracks(s, b, aToB);
        WalkTracks(next.value, b, aToB);
      } else if next.value.remaining > 0 && (s.fee.adaptive ==> Aligned(b, s.fee.constants.groupSize)) {
        StepSyncs(s, b, aToB);
      }
    }
  }

  lemma GroupSizePositive(s: State, b: Boundary, aToB: bool)
    requires Approaching(s, b, aToB)
    ensures s.fee.adaptive ==> s.fee.constants.groupSize > 0
  {
  }

  /** The states at the start of each step of a run, with the stop each heads for. */
  function Trail(s: State, aToB: bool, ticks: TickProvider): seq<(State, Boundary)>
    requires Positioned(s, aToB) && Honours(ticks, aToB)
    decreases s.remaining > 0, TicksLeft(s, aToB)
  {
    hide Positioned, Approaching, StepToBoundary, OrcaPrice;
    if s.remaining == 0 || s.sqrtPrice == Limit(aToB) then []
    else
      match ticks(s.tick, aToB)
      case None => []
      case Some(b) =>
        AtBoundary(s, b, aToB);
        var next := StepToBoundary(s, b, aToB);
        StepToBoundarySound(s, b, aToB);
        Heading(WalkTrail(s, b, aToB), b) + if next.Err? then [] else Trail(next.value, aToB, ticks)
  }

  function Heading(states: seq<State>, b: Boundary): (r: seq<(State, Boundary)>)
    ensures |r| == |states| && forall k :: 0 <= k < |r| ==> r[k] == (states[k], b)
  {
    seq(|states|, k requires 0 <= k < |states| => (states[k], b))
  }

  /** Adaptive-fee tracking, over whole runs: at every step of a run that starts in sync, against a
      provider whose stops are aligned until the last, the group holds the price and skips are flat. */
  lemma {:induction false} RunTracks(s: State, aToB: bool, ticks: TickProvider)
    requires Positioned(s, aToB) && Honours(ticks, aToB) && Synced(s) && CoreBuilt(s.fee)
    requires s.fee.adaptive ==>
               s.fee.constants.groupSize > 0 && AlignedUntilLast(ticks, aToB, s.fee.constants.groupSize)
    ensures forall k :: 0 <= k < |Trail(s, aToB, ticks)| ==>
                          OnCourse(Trail(s, aToB, ticks)[k].0, Trail(s, aToB, ticks)[k].1, aToB)
    decreases s.remaining > 0, TicksLeft(s, aToB)
  {
    hide StepToBoundary, OrcaPrice, R.WithinSpot, OnCourse, WalkTrail, CoreBuilt, FeePositioned, Synced, Tracks;
    if s.remaining > 0 && s.sqrtPrice != Limit(aToB) && ticks(s.tick, aToB).Some? {
      var b := ticks(s.tick, aToB).value;
      AtBoundary(s, b, aToB);
      SyncedTracks(s, b, aToB);
      WalkTracks(s, b, aToB);
      StepToBoundarySound(s, b, aToB);
      var next := StepToBoundary(s, b, aToB);
      if next.Ok? {
        if next.value.remaining > 0 && s.fee.adaptive && !Aligned(b, s.fee.constants.groupSize) {
          assert Trail(next.value, aToB, ticks) == [];
        } else if next.value.remaining > 0 {
          RunTracks(next.value, aToB, ticks);
        }
      }
    }
  }

  // ---- what every step of a run charges ----

  /** The same fee settings and reference; only the group and its accumulator move. */
  predicate SameFee(f: Fee, g: Fee) {
    g == f.(group := g.group, variables := f.variables.(accumulator := g.variables.accumulator))
  }

  lemma {:induction false} WalkKeepsFee(s: State, b: Boundary, aToB: bool)
    requires Approaching(s, b, aToB)
    ensures forall k :: 0 <= k < |WalkTrail(s, b, aToB)| ==> SameFee(s.fee, WalkTrail(s, b, aToB)[k].fee)
    ensures var walked := StepToBoundary(s, b, aToB);
            walked.Ok? ==> SameFee(s.fee, walked.value.fee)
    decreases GroupsLeft(s.fee)
  {
    hide StepOnce, OrcaPrice, R.WithinSpot, GroupsLeft, Positioned;
    StepOnceSound(s, b, aToB);
    var next := StepOnce(s, b, aToB);
    if next.Ok? && !Done(next.value, b, aToB) {
      WalkKeepsFee(next.value, b, aToB);
    }
  }

  lemma {:induction false} RunKeepsFee(s: State, aToB: bool, ticks: TickProvider)
    requires Positioned(s, aToB) && Honours(ticks, aToB)
    ensures forall k :: 0 <= k < |Trail(s, aToB, ticks)| ==> SameFee(s.fee, Trail(s, aToB, ticks)[k].0.fee)
    decreases s.remaining > 0, TicksLeft(s, aToB)
  {
    hide StepToBoundary, OrcaPrice, R.WithinSpot, WalkTrail, FeePositioned;
    if s.remaining > 0 && s.sqrtPrice != Limit(aToB) && ticks(s.tick, aToB).Some? {
      var b := ticks(s.tick, aToB).value;
      AtBoundary(s, b, aToB);
      WalkKeepsFee(s, b, aToB);
      StepToBoundarySound(s, b, aToB);
      var next := StepToBoundary(s, b, aToB);
      if next.Ok? {
        RunKeepsFee(next.value, aToB, ticks);
      }
    }
  }

  /** A rate is at most 10% and the least whole one that pays the static rate and covers the surcharge at some
      distance from the reference. */
  predicate IsRateAt(charged: nat, c: Constants, v: Variables, away: nat, staticRate: nat, rate: nat) {
    && charged <= 100_000
    && (away < 0x8000_0000 && v.volatilityReference < TWO32 && rate < 100_000 ==>
          var crossed := R.Min(v.volatilityReference + away * 10_000, c.maxAccumulator) * c.groupSize;
          (charged <= rate <==> Covers(rate, staticRate, c.controlFactor, crossed, 10_000_000_000_000)))
  }

  /** What a step is charged: the static rate without an adaptive fee, and otherwise the rate at its group's distance
      from the reference. */
  lemma StepCharges(f: Fee, g: Fee, rate: nat)
    requires SameFee(f, g) && f.staticRate < FEE_RATE_MUL
    ensures !f.adaptive ==> g.Charged().Rate() == f.staticRate
    ensures f.adaptive ==>
              var away := Distance(f.variables.groupReference, g.group);
              IsRateAt(g.Charged().Rate(), f.constants, f.variables, away, f.staticRate, rate)
  {
    hide Fee.Rate, Variables.AccumulatorAt, Covers, Distance;
    var charged := g.Charged();
    TotalIsLeastCover(charged, rate);
    if f.adaptive && Distance(f.variables.groupReference, g.group) < 0x8000_0000
       && f.variables.volatilityReference < TWO32 {
      AccumulatorIsDistance(g.variables, g.group, f.constants);
    }
  }
}
