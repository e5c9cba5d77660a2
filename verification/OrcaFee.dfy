/** Orca's adaptive fee: a volatility accumulator over tick groups, and the core range of groups
    outside which it is saturated so that a step may skip straight across. */
module OrcaFee {
  import opened Rounding
  import opened Wrappers
  import opened MachineIntegers
  import opened TickTables
  import opened TickMath
  import opened OrcaMath
  import R = RaydiumMath

  const ACCUMULATOR_SCALE: nat := 10_000
  const REDUCTION_DENOMINATOR: nat := 10_000
  const CONTROL_DENOMINATOR: nat := 100_000
  /** Seconds after which a reference is reset whatever happened since. */
  const MAX_REFERENCE_AGE: nat := 3_600
  /** The total fee is capped at 10%. */
  const FEE_RATE_HARD_LIMIT: nat := 100_000

  datatype Constants = Constants(
    filterPeriod: nat,
    decayPeriod: nat,
    reductionFactor: nat,
    controlFactor: nat,
    maxAccumulator: nat,
    groupSize: nat
  )

  datatype Variables = Variables(
    lastReferenceUpdate: nat,
    lastMajorSwap: nat,
    volatilityReference: nat,
    groupReference: int,
    accumulator: nat
  ) {
    /** Decay of the reference; nothing when time runs backwards. */
    function UpdateReference(group: int, timestamp: nat, c: Constants): Option<Variables> {
      var latest := if lastMajorSwap > lastReferenceUpdate then lastMajorSwap else lastReferenceUpdate;
      if timestamp < latest then None
      else
        var moved := this.(groupReference := group, lastReferenceUpdate := timestamp);
        var elapsed := timestamp - latest;
        if timestamp - lastReferenceUpdate > MAX_REFERENCE_AGE then Some(moved.(volatilityReference := 0))
        else if elapsed < c.filterPeriod then Some(this)
        else if elapsed < c.decayPeriod
        then Some(moved.(volatilityReference := Uint32(accumulator * c.reductionFactor / REDUCTION_DENOMINATOR)))
        else Some(moved.(volatilityReference := 0))
    }

    /** The accumulator at a group, capped. */
    function AccumulatorAt(group: int, c: Constants): nat {
      var delta := Int32(groupReference - group);
      var distance := if delta < 0 then Int32(-delta) else delta;
      var accumulated := Uint64(volatilityReference + Uint32(distance) * ACCUMULATOR_SCALE);
      if accumulated > c.maxAccumulator then c.maxAccumulator else accumulated
    }

    function UpdateAccumulator(group: int, c: Constants): Variables {
      this.(accumulator := AccumulatorAt(group, c))
    }
  }

  /** The surcharge at an accumulator value: quadratic, rounded up, capped. */
  function AdaptiveFeeRate(c: Constants, accumulator: nat): (rate: nat)
    ensures rate <= FEE_RATE_HARD_LIMIT
  {
    var crossed := accumulator * c.groupSize;
    var rate := CeilDiv(c.controlFactor * (crossed * crossed),
                        CONTROL_DENOMINATOR * ACCUMULATOR_SCALE * ACCUMULATOR_SCALE);
    if rate > FEE_RATE_HARD_LIMIT then FEE_RATE_HARD_LIMIT else rate
  }

  datatype Info = Info(constants: Constants, variables: Variables)

  /** One edge of the core range. */
  datatype GroupBound = GroupBound(index: int, sqrtPrice: nat)

  datatype Fee = Fee(
    adaptive: bool,
    aToB: bool,
    group: int,
    staticRate: nat,
    constants: Constants,
    variables: Variables,
    coreLower: Option<GroupBound>,
    coreUpper: Option<GroupBound>
  ) {
    function Charged(): Fee {
      if !adaptive then this else this.(variables := variables.UpdateAccumulator(group, constants))
    }

    function Rate(): (rate: nat)
      requires staticRate < FEE_RATE_MUL
      ensures rate < FEE_RATE_MUL
    {
      if !adaptive then staticRate
      else
        var total := staticRate + AdaptiveFeeRate(constants, variables.accumulator);
        if total > FEE_RATE_HARD_LIMIT then FEE_RATE_HARD_LIMIT else total
    }

    /** The tick at the far edge of the current group, kept in range. */
    function GroupEdge(): (tick: int)
      ensures InRange(tick)
    {
      var edge := if aToB then group * constants.groupSize else group * constants.groupSize + constants.groupSize;
      ClampTick(edge)
    }

    /** How far the next step may go, and whether the fee is flat all the way there. */
    function BoundedTarget(target: nat, liquidity: nat): (nat, bool) {
      if !adaptive then (target, false)
      else if constants.controlFactor == 0 || liquidity == 0 then (target, true)
      else if coreLower.Some? && group < coreLower.value.index then
        (if aToB then target else R.Min(target, coreLower.value.sqrtPrice), true)
      else if coreUpper.Some? && group > coreUpper.value.index then
        (if aToB then R.Max(target, coreUpper.value.sqrtPrice) else target, true)
      else
        var edge := OrcaPrice(GroupEdge());
        (if aToB then R.Max(target, edge) else R.Min(target, edge), false)
    }

    function Shift(): Fee {
      this.(group := if aToB then group - 1 else group + 1)
    }

    function AdvanceGroup(): Fee {
      if !adaptive then this else Shift()
    }

    /** The last group a skipped step went through, from where it ended. */
    function LastTraversed(sqrtPrice: nat, nextTickSqrtPrice: nat, nextTick: int): int
      requires constants.groupSize > 0 && MIN_SQRT_PRICE <= sqrtPrice
    {
      var atNext := sqrtPrice == nextTickSqrtPrice;
      var tick := if atNext then nextTick else OrcaTickAt(sqrtPrice);
      var onBoundary := TruncMod(tick, constants.groupSize) == 0 && (atNext || sqrtPrice == OrcaPrice(tick));
      if onBoundary && !aToB then TruncDiv(tick, constants.groupSize) - 1 else FloorIndex(tick, constants.groupSize)
    }

    /** Realign to the group a skipped step reached, then shift by one. */
    function AdvanceAfterSkip(sqrtPrice: nat, nextTickSqrtPrice: nat, nextTick: int): Fee
      requires adaptive ==> constants.groupSize > 0 && MIN_SQRT_PRICE <= sqrtPrice
    {
      if !adaptive then this
      else
        var last := LastTraversed(sqrtPrice, nextTickSqrtPrice, nextTick);
        var realigned :=
          if (aToB && last < group) || (!aToB && last > group)
          then this.(group := last, variables := variables.UpdateAccumulator(last, constants))
          else this;
        realigned.Shift()
    }
  }

  function ClampTick(tick: int): (clamped: int)
    ensures InRange(clamped)
    ensures InRange(tick) ==> clamped == tick
  {
    if tick < MIN_TICK then MIN_TICK else if tick > MAX_TICK then MAX_TICK else tick
  }

  function StaticFee(staticRate: nat): Fee {
    Fee(false, false, 0, staticRate, Constants(0, 0, 0, 0, 0, 0), Variables(0, 0, 0, 0, 0), None, None)
  }

  /** Groups from the reference at which the accumulator saturates. */
  function MaxDelta(c: Constants, v: Variables): nat {
    CeilDiv(Uint32(c.maxAccumulator - v.volatilityReference), ACCUMULATOR_SCALE)
  }

  /** The manager a swap starts with; nothing when time runs backwards. */
  function NewFee(aToB: bool, tick: int, timestamp: nat, staticRate: nat, info: Option<Info>): Option<Fee>
    requires info.Some? ==> info.value.constants.groupSize > 0
  {
    if info.None? then Some(StaticFee(staticRate))
    else
      var c := info.value.constants;
      var group := FloorIndex(tick, c.groupSize);
      match info.value.variables.UpdateReference(group, timestamp, c)
      case None => None
      case Some(v) =>
        var lower, upper := v.groupReference - MaxDelta(c, v), v.groupReference + MaxDelta(c, v);
        var lowerTick, upperTick := lower * c.groupSize, upper * c.groupSize + c.groupSize;
        Some(Fee(true, aToB, group, staticRate, c, v,
                 if lowerTick > MIN_TICK then Some(GroupBound(lower, OrcaPrice(lowerTick))) else None,
                 if upperTick < MAX_TICK then Some(GroupBound(upper, OrcaPrice(upperTick))) else None))
  }

  // ---- how the reference decays ----

  /** Exactly how the reference decays. A timestamp before either stored one is refused. A reference more than an hour
      old is dropped; otherwise it is left alone within the filter period, and past it replaced by the accumulator's
      share rounded down inside the decay period and dropped after. Whatever is not left alone moves to the group. */
  lemma ReferenceDecays(v: Variables, group: int, timestamp: nat, c: Constants, k: nat)
    ensures var next := v.UpdateReference(group, timestamp, c);
            && (next.None? <==> timestamp < v.lastReferenceUpdate || timestamp < v.lastMajorSwap)
            && (next.Some? ==> DecayedTo(v, next.value, group, timestamp, c, k))
  {
    hide Uint32;
    Uint32Share(v.accumulator * c.reductionFactor, k);
  }

  predicate DecayedTo(v: Variables, n: Variables, group: int, timestamp: nat, c: Constants, k: nat)
    requires v.lastReferenceUpdate <= timestamp && v.lastMajorSwap <= timestamp
  {
    var age, quiet := timestamp - v.lastReferenceUpdate, timestamp - v.lastMajorSwap;
    var elapsed := if age < quiet then age else quiet;
    var kept := age <= 3_600 && elapsed < c.filterPeriod;
    var shared := age <= 3_600 && c.filterPeriod <= elapsed < c.decayPeriod;
    && (kept ==> n == v)
    && (!kept ==> n == v.(groupReference := group, lastReferenceUpdate := timestamp,
                       volatilityReference := n.volatilityReference))
    && (shared && v.accumulator * c.reductionFactor < TWO32 * 10_000 ==>
          (k <= n.volatilityReference <==> k * 10_000 <= v.accumulator * c.reductionFactor))
    && (!kept && !shared ==> n.volatilityReference == 0)
  }

  /** The manager a swap starts with: refused exactly with its reference, and otherwise at the group of the pool's
      tick with the reference decayed. */
  lemma NewFeeDecays(aToB: bool, tick: int, timestamp: nat, staticRate: nat, info: Info, k: nat)
    requires info.constants.groupSize > 0
    ensures var fee := NewFee(aToB, tick, timestamp, staticRate, Some(info));
            && (fee.None? <==>
                timestamp < info.variables.lastReferenceUpdate || timestamp < info.variables.lastMajorSwap)
            && (fee.Some? ==>
                  var f, group := fee.value, FloorIndex(tick, info.constants.groupSize);
                  && f.adaptive && f.aToB == aToB && f.group == group
                  && f.staticRate == staticRate && f.constants == info.constants
                  && DecayedTo(info.variables, f.variables, group, timestamp, info.constants, k))
  {
    hide OrcaPrice, Variables.UpdateReference, DecayedTo;
    ReferenceDecays(info.variables, FloorIndex(tick, info.constants.groupSize), timestamp, info.constants, k);
  }

  /** The core range it is built with: on both sides of the reference, the least number of groups at which the
      accumulator is full, kept only inside the tick range and with the prices of its outer edges. */
  lemma CoreRange(aToB: bool, tick: int, timestamp: nat, staticRate: nat, info: Info, delta: nat)
    requires info.constants.groupSize > 0 && NewFee(aToB, tick, timestamp, staticRate, Some(info)).Some?
    requires var c, v := info.constants, NewFee(aToB, tick, timestamp, staticRate, Some(info)).value.variables;
             && v.volatilityReference <= c.maxAccumulator < TWO32
             && c.maxAccumulator - v.volatilityReference <= delta * 10_000
             && delta * 10_000 < c.maxAccumulator - v.volatilityReference + 10_000
    ensures var f, size := NewFee(aToB, tick, timestamp, staticRate, Some(info)).value, info.constants.groupSize;
            var lower, upper := f.variables.groupReference - delta, f.variables.groupReference + delta;
            && f.coreLower
               == (if lower * size <= -443_636 then None else Some(GroupBound(lower, OrcaPrice(lower * size))))
            && f.coreUpper == (if upper * size + size >= 443_636 then None
                               else Some(GroupBound(upper, OrcaPrice(upper * size + size))))
  {
    hide OrcaPrice, Variables.UpdateReference, CeilDiv, Uint32;
    var f := NewFee(aToB, tick, timestamp, staticRate, Some(info)).value;
    var room := f.constants.maxAccumulator - f.variables.volatilityReference;
    Uint32Exact(room);
    CeilAdjoint(room, ACCUMULATOR_SCALE, delta);
    if delta > 0 {
      CeilAdjoint(room, ACCUMULATOR_SCALE, delta - 1);
    }
  }

  /** A static-fee pool's manager. */
  lemma PlainFee(aToB: bool, tick: int, timestamp: nat, staticRate: nat)
    ensures NewFee(aToB, tick, timestamp, staticRate, None) == Some(StaticFee(staticRate))
  {
  }

  // ---- what the fee does as the price travels ----

  /** Without wrap-around the accumulator is the reference plus 10_000 a group, capped. */
  lemma AccumulatorIsDistance(v: Variables, group: int, c: Constants)
    requires Distance(v.groupReference, group) < 0x8000_0000 && v.volatilityReference < TWO32
    ensures v.AccumulatorAt(group, c)
         == R.Min(v.volatilityReference + Distance(v.groupReference, group) * 10_000, c.maxAccumulator)
  {
    hide Int32, Uint32, Uint64;
    DistanceFits(v.groupReference, group);
    Uint64Exact(v.volatilityReference + Distance(v.groupReference, group) * ACCUMULATOR_SCALE);
  }

  /** The surcharge is the least whole rate covering the quadratic one, up to the cap. */
  lemma AdaptiveRateIsLeastCover(c: Constants, accumulator: nat, rate: nat)
    requires rate < FEE_RATE_HARD_LIMIT
    ensures AdaptiveFeeRate(c, accumulator) <= rate
       <==> c.controlFactor * ((accumulator * c.groupSize) * (accumulator * c.groupSize)) <= rate * 10_000_000_000_000
  {
    CeilAdjoint(c.controlFactor * ((accumulator * c.groupSize) * (accumulator * c.groupSize)),
                10_000_000_000_000, rate);
  }

  /** The total rate is the least whole rate that pays the static rate and covers the surcharge, up to the cap of 10%;
      without an adaptive fee it is the static rate. */
  lemma TotalIsLeastCover(f: Fee, rate: nat)
    requires f.staticRate < FEE_RATE_MUL
    ensures !f.adaptive ==> f.Rate() == f.staticRate
    ensures f.adaptive ==> f.Rate() <= 100_000
    ensures f.adaptive && rate < 100_000 ==>
              (f.Rate() <= rate <==>
               Covers(rate, f.staticRate, f.constants.controlFactor, f.variables.accumulator * f.constants.groupSize,
                      10_000_000_000_000))
  {
    if rate < 100_000 {
      CappedSurcharge(f.staticRate, f.constants.controlFactor, f.variables.accumulator * f.constants.groupSize,
                      10_000_000_000_000, 100_000, rate);
    }
  }

  lemma AdaptiveRateGrows(c: Constants, a: nat, b: nat)
    requires a <= b
    ensures AdaptiveFeeRate(c, a) <= AdaptiveFeeRate(c, b)
  {
    var x, y := a * c.groupSize, b * c.groupSize;
    MulMono(a, b, c.groupSize);
    R.SquareMono(x, y);
    MulMono(x * x, y * y, c.controlFactor);
    CeilMono(c.controlFactor * (x * x), c.controlFactor * (y * y),
             CONTROL_DENOMINATOR * ACCUMULATOR_SCALE * ACCUMULATOR_SCALE);
  }

  /** The further the group is from the reference, the higher the total fee, on either side. */
  lemma FeeNeverFallsWithDistance(f: Fee, near: int, far: int)
    requires f.adaptive && f.staticRate < FEE_RATE_MUL && f.variables.volatilityReference < TWO32
    requires Distance(f.variables.groupReference, near) <= Distance(f.variables.groupReference, far) < 0x8000_0000
    ensures f.(group := near).Charged().Rate() <= f.(group := far).Charged().Rate()
  {
    hide AdaptiveFeeRate, Variables.AccumulatorAt;
    AccumulatorIsDistance(f.variables, near, f.constants);
    AccumulatorIsDistance(f.variables, far, f.constants);
    AdaptiveRateGrows(f.constants, f.variables.AccumulatorAt(near, f.constants),
                      f.variables.AccumulatorAt(far, f.constants));
  }
}
