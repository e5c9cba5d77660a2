/** Raydium's dynamic fee: a surcharge on the base rate, quadratic in the distance travelled since a decaying
    reference and measured in groups of ticks. */
module RaydiumFee {
  import opened Rounding
  import opened Wrappers
  import opened MachineIntegers
  import opened RaydiumMath

  const ACCUMULATOR_SCALE: nat := 10_000
  const REDUCTION_DENOMINATOR: nat := 10_000
  const CONTROL_DENOMINATOR: nat := 100_000
  /** The total fee is capped at 10%. */
  const MAX_FEE_RATE: nat := 100_000

  datatype DynamicFee = DynamicFee(
    filterPeriod: nat,
    decayPeriod: nat,
    reductionFactor: nat,
    control: nat,
    maxAccumulator: nat,
    indexReference: int,
    volatilityReference: nat,
    accumulator: nat,
    lastUpdate: nat
  ) {
    /** An all-zero record means the pool charges no dynamic fee. */
    predicate Enabled() {
      this != DynamicFee(0, 0, 0, 0, 0, 0, 0, 0, 0)
    }

    /** Decay of the reference: kept inside the filter period, reduced inside the decay period, zero after. */
    function UpdateReference(index: int, timestamp: nat): DynamicFee {
      var elapsed := if timestamp > lastUpdate then timestamp - lastUpdate else 0;
      if elapsed < filterPeriod then this
      else
        var moved := this.(indexReference := index, lastUpdate := timestamp);
        if elapsed < decayPeriod
        then moved.(volatilityReference := Uint32(accumulator * reductionFactor / REDUCTION_DENOMINATOR))
        else moved.(volatilityReference := 0)
    }

    /** The accumulator from how many groups the price has travelled since the reference, capped. */
    function UpdateAccumulator(index: int): DynamicFee {
      var delta := Int32(indexReference - index);
      var distance := if delta < 0 then Int32(-delta) else delta;
      var accumulated := Uint64(volatilityReference + Uint64(Uint64(distance) * ACCUMULATOR_SCALE));
      this.(accumulator := if accumulated > maxAccumulator then maxAccumulator else accumulated)
    }

    function Rate(tickSpacing: nat): (rate: nat)
      ensures rate <= MAX_FEE_RATE
    {
      var crossed := accumulator * tickSpacing;
      var rate := CeilDiv(control * (crossed * crossed), CONTROL_DENOMINATOR * ACCUMULATOR_SCALE * ACCUMULATOR_SCALE);
      if rate > MAX_FEE_RATE then MAX_FEE_RATE else rate
    }
  }

  function TotalFeeRate(dyn: Option<DynamicFee>, tickSpacing: nat, baseFeeRate: nat): (rate: nat)
    requires baseFeeRate < FEE_DENOMINATOR
    ensures rate < FEE_DENOMINATOR
  {
    if dyn.None? then baseFeeRate
    else
      var total := baseFeeRate + dyn.value.Rate(tickSpacing);
      if total > MAX_FEE_RATE then MAX_FEE_RATE else total
  }

  // ---- what the fee does as the price travels ----

  /** Without wrap-around the accumulator is the reference plus 10_000 a group, capped. */
  lemma AccumulatorIsDistance(d: DynamicFee, index: int)
    requires Distance(d.indexReference, index) < 0x8000_0000 && d.volatilityReference < TWO32
    ensures d.UpdateAccumulator(index).accumulator
         == Min(d.volatilityReference + Distance(d.indexReference, index) * 10_000, d.maxAccumulator)
  {
    hide Int32, Uint64;
    DistanceFits(d.indexReference, index);
    Uint64Exact(Distance(d.indexReference, index) * ACCUMULATOR_SCALE);
    Uint64Exact(Distance(d.indexReference, index));
    Uint64Exact(d.volatilityReference + Distance(d.indexReference, index) * ACCUMULATOR_SCALE);
  }

  /** The rate is the least whole rate covering the quadratic surcharge, up to the cap. */
  lemma RateIsLeastCover(d: DynamicFee, tickSpacing: nat, rate: nat)
    requires rate < MAX_FEE_RATE
    ensures d.Rate(tickSpacing) <= rate
       <==> d.control * ((d.accumulator * tickSpacing) * (d.accumulator * tickSpacing)) <= rate * 10_000_000_000_000
  {
    CeilAdjoint(d.control * ((d.accumulator * tickSpacing) * (d.accumulator * tickSpacing)), 10_000_000_000_000, rate);
  }

  /** The total rate is the least whole rate that pays the base rate and covers the surcharge, up to the cap of 10%;
      without a dynamic fee it is the base rate. */
  lemma TotalIsLeastCover(d: DynamicFee, tickSpacing: nat, baseFeeRate: nat, rate: nat)
    requires baseFeeRate < FEE_DENOMINATOR
    ensures TotalFeeRate(None, tickSpacing, baseFeeRate) == baseFeeRate
    ensures TotalFeeRate(Some(d), tickSpacing, baseFeeRate) <= 100_000
    ensures rate < 100_000 ==>
              (TotalFeeRate(Some(d), tickSpacing, baseFeeRate) <= rate <==>
               Covers(rate, baseFeeRate, d.control, d.accumulator * tickSpacing, 10_000_000_000_000))
  {
    if rate < 100_000 {
      CappedSurcharge(baseFeeRate, d.control, d.accumulator * tickSpacing, 10_000_000_000_000, 100_000, rate);
    }
  }

  lemma QuadraticMono(a: nat, b: nat, size: nat, control: nat)
    requires a <= b
    ensures control * ((a * size) * (a * size)) <= control * ((b * size) * (b * size))
  {
    MulMono(a, b, size);
    SquareMono(a * size, b * size);
    MulMono((a * size) * (a * size), (b * size) * (b * size), control);
  }

  lemma RateGrows(d: DynamicFee, a: nat, b: nat, tickSpacing: nat)
    requires a <= b
    ensures d.(accumulator := a).Rate(tickSpacing) <= d.(accumulator := b).Rate(tickSpacing)
  {
    QuadraticMono(a, b, tickSpacing, d.control);
    CeilMono(d.control * ((a * tickSpacing) * (a * tickSpacing)), d.control * ((b * tickSpacing) * (b * tickSpacing)),
             CONTROL_DENOMINATOR * ACCUMULATOR_SCALE * ACCUMULATOR_SCALE);
  }

  /** The further the price has travelled from the reference, the higher the total fee, on either side. */
  lemma FeeNeverFallsWithDistance(d: DynamicFee, near: int, far: int, tickSpacing: nat, baseFeeRate: nat)
    requires Distance(d.indexReference, near) <= Distance(d.indexReference, far) < 0x8000_0000
    requires d.volatilityReference < TWO32 && baseFeeRate < FEE_DENOMINATOR
    ensures TotalFeeRate(Some(d.UpdateAccumulator(near)), tickSpacing, baseFeeRate)
         <= TotalFeeRate(Some(d.UpdateAccumulator(far)), tickSpacing, baseFeeRate)
  {
    hide DynamicFee.Rate;
    AccumulatorIsDistance(d, near);
    AccumulatorIsDistance(d, far);
    RateGrows(d, d.UpdateAccumulator(near).accumulator, d.UpdateAccumulator(far).accumulator, tickSpacing);
  }

  /** Exactly how the reference decays: left alone within the filter period; past it moved to the current group, with
      the accumulator's share rounded down inside the decay period and nothing after. */
  lemma ReferenceDecays(d: DynamicFee, index: int, timestamp: nat, k: nat)
    ensures var n, elapsed := d.UpdateReference(index, timestamp),
                              if timestamp > d.lastUpdate then timestamp - d.lastUpdate else 0;
            && n == d.(indexReference := n.indexReference, lastUpdate := n.lastUpdate,
                    volatilityReference := n.volatilityReference)
            && (elapsed < d.filterPeriod ==> n == d)
            && (elapsed >= d.filterPeriod ==> n.indexReference == index && n.lastUpdate == timestamp)
            && (elapsed >= d.filterPeriod && elapsed >= d.decayPeriod ==> n.volatilityReference == 0)
            && (d.filterPeriod <= elapsed < d.decayPeriod && d.accumulator * d.reductionFactor < TWO32 * 10_000 ==>
                  (k <= n.volatilityReference <==> k * 10_000 <= d.accumulator * d.reductionFactor))
  {
    hide Uint32;
    Uint32Share(d.accumulator * d.reductionFactor, k);
  }
}
