/** DAMM v2's time-scheduled base fee: a cliff that steps down by a flat amount or by a constant factor
    every elapsed period. The fee never rises as time passes. */
module FeeSchedule {
  import opened Reals
  import opened Rounding
  import opened Wrappers
  import opened FixedPow

  const MAX_BASIS_POINT: nat := 10_000
  const U16MAX: nat := 0xFFFF

  const TIME_LINEAR: nat := 0
  const TIME_EXPONENTIAL: nat := 1
  const RATE_LIMITER: nat := 2

  /** The decoded base-fee settings; only the fields of the mode in force carry meaning. */
  datatype BaseFee = BaseFee(
    cliffFeeNumerator: nat,
    mode: nat,
    numberOfPeriod: nat,
    reductionFactor: nat,
    periodFrequency: nat,
    feeIncrementBps: nat,
    maxFeeBps: nat,
    referenceAmount: nat
  ) {
    predicate IsStatic() {
      mode <= TIME_EXPONENTIAL && (periodFrequency == 0 || numberOfPeriod == 0 || reductionFactor == 0)
    }

    /** The widths of the decoded fields. */
    predicate Decoded() {
      && cliffFeeNumerator <= U64MAX && mode <= 0xFF && numberOfPeriod <= U16MAX
      && reductionFactor <= U64MAX && periodFrequency <= U64MAX
      && feeIncrementBps <= U16MAX && maxFeeBps <= 0xFFFF_FFFF && referenceAmount <= U64MAX
    }
  }

  datatype FeeError = Arithmetic(cause: Error) | RateLimiterNeedsAmount | UnsupportedMode

  /** What a period multiplies the fee by, in Q64.64, or nothing when the reduction exceeds the whole. */
  function PeriodBase(reductionFactor: nat): Option<nat> {
    var bps := FloorDiv(reductionFactor * Q64, MAX_BASIS_POINT);
    if bps > Q64 then None else Some(Q64 - bps)
  }

  function FeeInPeriod(cliff: nat, reductionFactor: nat, period: nat): Result<nat, Error> {
    if reductionFactor == 0 then Ok(cliff)
    else
      var base :- match PeriodBase(reductionFactor) case None => Err(MathOverflow) case Some(b) => Ok(b);
      var factor :- Power(base, period);
      var mul :- MulChecked(factor, cliff);
      var fee := FloorDiv(mul, Q64);
      if fee > U64MAX then Err(TypeCastFailed) else Ok(fee)
  }

  function FeeInPeriodLinear(cliff: nat, reductionFactor: nat, period: nat): nat {
    var reduction := reductionFactor * period;
    if reduction >= cliff then 0 else cliff - reduction
  }

  /** How many periods are over, at most as many as the schedule has. */
  function Period(f: BaseFee, currentPoint: nat, activationPoint: nat): (p: nat)
    ensures p <= f.numberOfPeriod
  {
    if currentPoint <= activationPoint || f.periodFrequency == 0 then 0
    else
      var elapsed := FloorDiv(currentPoint - activationPoint, f.periodFrequency);
      if elapsed >= f.numberOfPeriod then f.numberOfPeriod else elapsed
  }

  function CurrentBaseFeeNumerator(f: BaseFee, currentPoint: nat, activationPoint: nat): Result<nat, FeeError> {
    if f.mode <= TIME_EXPONENTIAL then
      if f.IsStatic() then Ok(f.cliffFeeNumerator)
      else
        var period := Period(f, currentPoint, activationPoint);
        if f.mode == TIME_LINEAR then Ok(FeeInPeriodLinear(f.cliffFeeNumerator, f.reductionFactor, period))
        else
          match FeeInPeriod(f.cliffFeeNumerator, f.reductionFactor, period)
          case Ok(fee) => Ok(fee)
          case Err(e) => Err(Arithmetic(e))
    else if f.mode == RATE_LIMITER then Err(RateLimiterNeedsAmount)
    else Err(UnsupportedMode)
  }

  lemma PeriodBaseIsFraction(reductionFactor: nat)
    requires reductionFactor > 0
    ensures PeriodBase(reductionFactor).Some? ==> PeriodBase(reductionFactor).value < Q64
    ensures PeriodBase(reductionFactor).Some? <==> reductionFactor * Q64 < (Q64 + 1) * MAX_BASIS_POINT
  {
    MulMono(1, reductionFactor, Q64);
    FloorAdjoint(1, reductionFactor * Q64, MAX_BASIS_POINT);
    FloorAdjoint(Q64 + 1, reductionFactor * Q64, MAX_BASIS_POINT);
  }

  /** The exponential schedule fails exactly when a period would take off more than everything, or when
      the compounded factor has vanished; its fee never exceeds the cliff. */
  lemma FeeInPeriodFails(cliff: nat, reductionFactor: nat, period: nat)
    requires cliff <= U64MAX && period <= U16MAX
    ensures var fee := FeeInPeriod(cliff, reductionFactor, period);
            && (fee.Err? <==>
                reductionFactor > 0
                && match PeriodBase(reductionFactor) case None => true case Some(base) => Product(base, period) == 0)
            && (if fee.Ok? then fee.value <= cliff else fee.error == MathOverflow)
  {
    hide Product;
    if reductionFactor > 0 && PeriodBase(reductionFactor).Some? {
      PeriodBaseIsFraction(reductionFactor);
      var base := PeriodBase(reductionFactor).value;
      ZerothAndFirst(base);
      ProductAntitone(base, 0, period);
      var factor := Product(base, period);
      MulMono(factor, Q64, cliff);
      MulMono(cliff, U64MAX, Q64);
      FloorMono(factor * cliff, Q64 * cliff, Q64);
      FloorUnique(cliff, Q64 * cliff, Q64);
    }
  }

  lemma FeeInPeriodFalls(cliff: nat, reductionFactor: nat, period: nat, later: nat)
    requires period <= later <= U16MAX
    requires FeeInPeriod(cliff, reductionFactor, period).Ok? && FeeInPeriod(cliff, reductionFactor, later).Ok?
    ensures FeeInPeriod(cliff, reductionFactor, later).value <= FeeInPeriod(cliff, reductionFactor, period).value
  {
    hide Power;
    if reductionFactor > 0 {
      PeriodBaseIsFraction(reductionFactor);
      var base := PeriodBase(reductionFactor).value;
      PowerMonotone(base, period, later);
      var x, y := Power(base, later).value, Power(base, period).value;
      MulMono(x, y, cliff);
      FloorMono(x * cliff, y * cliff, Q64);
    }
  }

  lemma PeriodGrows(f: BaseFee, now: nat, later: nat, activationPoint: nat)
    requires now <= later
    ensures Period(f, now, activationPoint) <= Period(f, later, activationPoint)
  {
    if now > activationPoint && f.periodFrequency > 0 {
      FloorMono(now - activationPoint, later - activationPoint, f.periodFrequency);
    }
  }

  /** Never above cliff * x^period, and below it by at most one unit and the share of the power's own error. */
  ghost predicate FollowsCompounding(fee: nat, cliff: nat, x: real, period: nat) {
    && fee as real <= cliff as real * RealPow(x, period)
    && cliff as real * RealPow(x, period) <= fee as real + 1.0 + ((period - 1) * cliff) as real / UNIT
  }

  /** The exponential schedule tracks ideal compounding: never above cliff * x^n, where x is what a period
      leaves, and below it by at most one unit and the share of the power's own error. */
  lemma FeeTracksCompounding(cliff: nat, reductionFactor: nat, period: nat)
    requires cliff <= U64MAX && reductionFactor > 0 && 0 < period <= U16MAX
    requires FeeInPeriod(cliff, reductionFactor, period).Ok?
    ensures PeriodBase(reductionFactor).Some?
    ensures var fee, x := FeeInPeriod(cliff, reductionFactor, period).value,
                          Fraction(PeriodBase(reductionFactor).value);
            FollowsCompounding(fee, cliff, x, period)
  {
    hide Product, RealPow, Fraction;
    PeriodBaseIsFraction(reductionFactor);
    var base := PeriodBase(reductionFactor).value;
    ProductErrorBound(base, period);
    var product := Product(base, period);
    var fee := FloorDiv(product * cliff, Q64);
    ShareOfPower(product, cliff, fee, RealPow(Fraction(base), period), period - 1);
  }

  /** p periods of the schedule are over. */
  predicate HasPassed(f: BaseFee, p: nat, currentPoint: nat, activationPoint: nat) {
    p == 0
    || (f.periodFrequency > 0 && p <= f.numberOfPeriod && activationPoint + p * f.periodFrequency <= currentPoint)
  }

  /** Period p is reached exactly when the schedule has it and p whole frequencies have passed since activation. */
  lemma PeriodAdjoint(f: BaseFee, currentPoint: nat, activationPoint: nat, p: nat)
    ensures p <= Period(f, currentPoint, activationPoint) <==> HasPassed(f, p, currentPoint, activationPoint)
  {
    if f.periodFrequency > 0 && p > 0 {
      if currentPoint > activationPoint {
        FloorAdjoint(p, currentPoint - activationPoint, f.periodFrequency);
      } else {
        Positive(p, f.periodFrequency);
      }
    }
  }

  lemma PeriodIs(f: BaseFee, currentPoint: nat, activationPoint: nat, p: nat)
    requires HasPassed(f, p, currentPoint, activationPoint) && !HasPassed(f, p + 1, currentPoint, activationPoint)
    ensures Period(f, currentPoint, activationPoint) == p
  {
    hide Period, HasPassed;
    PeriodAdjoint(f, currentPoint, activationPoint, p);
    PeriodAdjoint(f, currentPoint, activationPoint, p + 1);
  }

  /** The linear schedule: every period over takes the same amount off the cliff, down to nothing. */
  lemma LinearFee(f: BaseFee, currentPoint: nat, activationPoint: nat, p: nat, k: nat)
    requires f.mode == 0
    requires HasPassed(f, p, currentPoint, activationPoint) && !HasPassed(f, p + 1, currentPoint, activationPoint)
    ensures var fee := CurrentBaseFeeNumerator(f, currentPoint, activationPoint);
            fee.Ok? && (k <= fee.value <==> k == 0 || k + p * f.reductionFactor <= f.cliffFeeNumerator)
  {
    PeriodIs(f, currentPoint, activationPoint, p);
    hide Period, HasPassed;
    StaticPeriod(f, currentPoint, activationPoint);
  }

  lemma StaticPeriod(f: BaseFee, currentPoint: nat, activationPoint: nat)
    ensures f.IsStatic() ==> Period(f, currentPoint, activationPoint) * f.reductionFactor == 0
  {
  }

  /** The exponential schedule: every period over leaves `base` out of 2^64, which is the rest of the reduction in basis
      points rounded up. It fails exactly when there is no such rest or the compounded factor has vanished; its fee is
      the cliff at first and then follows the ideal compounding. */
  lemma ExponentialFee(f: BaseFee, currentPoint: nat, activationPoint: nat, p: nat, base: int)
    requires f.Decoded() && f.mode == 1 && f.periodFrequency > 0 && f.numberOfPeriod > 0 && f.reductionFactor > 0
    requires HasPassed(f, p, currentPoint, activationPoint) && !HasPassed(f, p + 1, currentPoint, activationPoint)
    requires (Q64 - base) * 10_000 <= f.reductionFactor * Q64 < (Q64 - base) * 10_000 + 10_000
    ensures var fee := CurrentBaseFeeNumerator(f, currentPoint, activationPoint);
            && (fee.Ok? <==> base >= 0 && Product(base, p) > 0)
            && if fee.Err? then fee.error == Arithmetic(MathOverflow)
               else if p == 0 then fee.value == f.cliffFeeNumerator
               else FollowsCompounding(fee.value, f.cliffFeeNumerator, base as real / UNIT, p)
  {
    PeriodIs(f, currentPoint, activationPoint, p);
    PeriodBaseIs(f.reductionFactor, base);
    hide Period, HasPassed, FeeInPeriod, PeriodBase;
    FeeInPeriodFails(f.cliffFeeNumerator, f.reductionFactor, p);
    if base >= 0 && Product(base, p) > 0 {
      if p == 0 {
        FirstPeriodIsCliff(f.cliffFeeNumerator, f.reductionFactor);
      } else {
        FeeTracksCompounding(f.cliffFeeNumerator, f.reductionFactor, p);
      }
    }
  }

  lemma PeriodBaseIs(reductionFactor: nat, base: int)
    requires (Q64 - base) * 10_000 <= reductionFactor * Q64 < (Q64 - base) * 10_000 + 10_000
    ensures PeriodBase(reductionFactor) == if base < 0 then None else Some(base)
  {
    FloorUnique(Q64 - base, reductionFactor * Q64, MAX_BASIS_POINT);
  }

  lemma FirstPeriodIsCliff(cliff: nat, reductionFactor: nat)
    requires FeeInPeriod(cliff, reductionFactor, 0).Ok?
    ensures FeeInPeriod(cliff, reductionFactor, 0).value == cliff
  {
    if reductionFactor > 0 {
      PeriodBaseIsFraction(reductionFactor);
      ZerothAndFirst(PeriodBase(reductionFactor).value);
      FloorUnique(cliff, Q64 * cliff, Q64);
    }
  }

  /** A schedule without periods charges the cliff in both modes; the rate limiter has no single fee, and no further
      mode is known. */
  lemma BaseFeeByMode(f: BaseFee, currentPoint: nat, activationPoint: nat)
    ensures var fee := CurrentBaseFeeNumerator(f, currentPoint, activationPoint);
            && (f.mode <= 1 && (f.periodFrequency == 0 || f.numberOfPeriod == 0 || f.reductionFactor == 0)
                ==> fee == Ok(f.cliffFeeNumerator))
            && (fee == Err(RateLimiterNeedsAmount) <==> f.mode == 2)
            && (fee == Err(UnsupportedMode) <==> f.mode > 2)
  {
    hide FeeInPeriod, Period;
  }

  /** The base fee never rises as the current point advances, wherever both calls succeed. */
  lemma BaseFeeNeverRises(f: BaseFee, now: nat, later: nat, activationPoint: nat)
    requires f.Decoded() && now <= later
    requires CurrentBaseFeeNumerator(f, now, activationPoint).Ok?
             && CurrentBaseFeeNumerator(f, later, activationPoint).Ok?
    ensures CurrentBaseFeeNumerator(f, later, activationPoint).value
         <= CurrentBaseFeeNumerator(f, now, activationPoint).value <= f.cliffFeeNumerator
  {
    hide FeeInPeriod, Period;
    PeriodGrows(f, now, later, activationPoint);
    var p, q := Period(f, now, activationPoint), Period(f, later, activationPoint);
    MulMono(p, q, f.reductionFactor);
    if f.mode == TIME_EXPONENTIAL && !f.IsStatic() {
      FeeInPeriodFalls(f.cliffFeeNumerator, f.reductionFactor, p, q);
      FeeInPeriodFails(f.cliffFeeNumerator, f.reductionFactor, p);
    }
  }

  lemma ShareOfPower(product: nat, cliff: nat, fee: nat, power: real, lost: nat)
    requires fee * Q64 <= product * cliff < fee * Q64 + Q64
    requires UNIT * power - lost as real <= product as real <= UNIT * power
    ensures fee as real <= cliff as real * power
    ensures cliff as real * power <= fee as real + 1.0 + (lost * cliff) as real / UNIT
  {
    ProductAsReal(product, cliff);
    ProductAsReal(lost, cliff);
    ShareAbove(product as real, cliff as real, fee as real, power, UNIT);
    ShareBelow(product as real, cliff as real, fee as real, power, lost as real, UNIT);
  }

  lemma ShareAbove(product: real, cliff: real, fee: real, power: real, unit: real)
    requires unit > 0.0 && cliff >= 0.0 && fee * unit <= product * cliff && product <= unit * power
    ensures fee <= cliff * power
  {
    RealMulMono(product, unit * power, cliff);
    Regroup(unit, power, cliff);
    RealCancel(fee, cliff * power, unit);
  }

  lemma ShareBelow(product: real, cliff: real, fee: real, power: real, lost: real, unit: real)
    requires unit > 0.0 && cliff >= 0.0 && product * cliff <= fee * unit + unit && unit * power - lost <= product
    ensures cliff * power <= fee + 1.0 + lost * cliff / unit
  {
    var share := lost * cliff / unit;
    assert share * unit == lost * cliff;
    RealMulMono(unit * power - lost, product, cliff);
    RealDistribute(unit * power, lost, cliff);
    Regroup(unit, power, cliff);
    RealDistribute(fee + 1.0, -share, unit);
    RealDistribute(fee, -1.0, unit);
    RealCancel(cliff * power, fee + 1.0 + share, unit);
  }

  lemma Regroup(a: real, b: real, c: real)
    ensures a * b * c == c * b * a
  {
  }
}
