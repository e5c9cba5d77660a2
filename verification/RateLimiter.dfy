/** DAMM v2's rate limiter: a fee that climbs chunk by chunk with the size of the swap, computed in
    closed form and proved equal to walking the chunks. */
module RateLimiter {
  import opened Rounding
  import opened Wrappers
  import opened FeeSchedule

  const FEE_DENOMINATOR: nat := 1_000_000_000
  const BPS_TO_FEE_NUMERATOR: nat := 100_000

  datatype LimiterError = NotRateLimiter | ValueOutOfRange

  function Increment(f: BaseFee): nat {
    f.feeIncrementBps * BPS_TO_FEE_NUMERATOR
  }

  function Cap(f: BaseFee): nat {
    f.maxFeeBps * BPS_TO_FEE_NUMERATOR
  }

  /** The greatest chunk index whose rate does not exceed the cap. */
  function MaxIndex(f: BaseFee): nat
    requires Increment(f) > 0 && Cap(f) >= f.cliffFeeNumerator
  {
    FloorDiv(Cap(f) - f.cliffFeeNumerator, Increment(f))
  }

  /** The rate summed over chunks 0..n while the cap does not bind. */
  function ChunkSum(f: BaseFee, n: nat): nat {
    f.cliffFeeNumerator + f.cliffFeeNumerator * n + FloorDiv(n * (n + 1), 2) * Increment(f)
  }

  /** No schedule, or one that can never raise the fee, or an input within the first chunk. */
  predicate Flat(f: BaseFee, input: nat) {
    f.referenceAmount == 0 || Increment(f) == 0 || Cap(f) <= f.cliffFeeNumerator || input <= f.referenceAmount
  }

  /** The closed form, in fee-numerator units, before the single division. */
  function Total(f: BaseFee, input: nat): nat {
    if Flat(f, input) then input * f.cliffFeeNumerator
    else
      var x0 := f.referenceAmount;
      var a, b := FloorDiv(input - x0, x0), (input - x0) % x0;
      var last := MaxIndex(f);
      if a < last then Charge(x0, ChunkSum(f, a), b, f.cliffFeeNumerator + Increment(f) * (a + 1))
      else Charge(x0, ChunkSum(f, last), Charge(a - last, x0, b, 1), Cap(f))
  }

  function Charge(x: nat, rate: nat, y: nat, other: nat): nat {
    x * rate + y * other
  }

  /** The base fee in tokens, rounded up once. */
  function RateLimiterFee(f: BaseFee, input: nat): Result<nat, LimiterError> {
    if f.mode != RATE_LIMITER then Err(NotRateLimiter)
    else
      var fee := CeilDiv(Total(f, input), FEE_DENOMINATOR);
      if fee > U64MAX then Err(ValueOutOfRange) else Ok(fee)
  }

  // ---- the chunks ----

  /** The rate of chunk k: climbing by the increment, capped. */
  function Rate(f: BaseFee, k: nat): nat {
    var rate := f.cliffFeeNumerator + Increment(f) * k;
    if rate > Cap(f) then Cap(f) else rate
  }

  /** Charging the input a reference amount at a time, from chunk k on. */
  function Walk(f: BaseFee, input: nat, k: nat): nat
    requires f.referenceAmount > 0
    decreases input
  {
    var x0 := f.referenceAmount;
    if input <= x0 then input * Rate(f, k) else x0 * Rate(f, k) + Walk(f, input - x0, k + 1)
  }

  /** The rates of chunks k..k+n-1. */
  function Rates(f: BaseFee, k: nat, n: nat): nat
    decreases n
  {
    if n == 0 then 0 else Rate(f, k) + Rates(f, k + 1, n - 1)
  }

  lemma {:induction false} RatesSplit(f: BaseFee, k: nat, m: nat, n: nat)
    ensures Rates(f, k, m + n) == Rates(f, k, m) + Rates(f, k + m, n)
    decreases m
  {
    if m > 0 {
      RatesSplit(f, k + 1, m - 1, n);
    }
  }

  /** n whole chunks and a last one of at most the reference amount. */
  lemma {:induction false} WalkChunks(f: BaseFee, k: nat, n: nat, last: nat)
    requires 0 < last <= f.referenceAmount
    ensures Walk(f, n * f.referenceAmount + last, k) == f.referenceAmount * Rates(f, k, n) + last * Rate(f, k + n)
    decreases n
  {
    hide Rate;
    var x0 := f.referenceAmount;
    if n > 0 {
      Distribute(x0, n - 1, 1);
      Distribute(x0, Rate(f, k), Rates(f, k + 1, n - 1));
      WalkChunks(f, k + 1, n - 1, last);
    }
  }

  /** Walking an input of more than one chunk, by quotient and remainder. */
  lemma WalkByQuotient(f: BaseFee, a: nat, b: nat)
    requires b < f.referenceAmount
    ensures var x0 := f.referenceAmount;
            Walk(f, x0 + (a * x0 + b), 0) == x0 * Rates(f, 0, a + 1) + b * Rate(f, a + 1)
  {
    hide Rate, Walk;
    var x0 := f.referenceAmount;
    Distribute(x0, a, 1);
    if b > 0 {
      WalkChunks(f, 0, a + 1, b);
    } else {
      WalkChunks(f, 0, a, x0);
      RatesSplit(f, 0, a, 1);
      Distribute(x0, Rates(f, 0, a), Rate(f, a));
    }
  }

  lemma Triangle(n: nat)
    ensures FloorDiv((n + 1) * (n + 2), 2) == FloorDiv(n * (n + 1), 2) + (n + 1)
  {
    assert (n + 1) * (n + 2) == n * (n + 1) + 2 * (n + 1);
  }

  /** Below the cap the rates add up to the closed sum. */
  lemma {:induction false} RatesBelowCap(f: BaseFee, n: nat)
    requires f.cliffFeeNumerator + Increment(f) * n <= Cap(f)
    ensures Rates(f, 0, n + 1) == ChunkSum(f, n)
  {
    hide Increment, Cap;
    var i := Increment(f);
    if n == 0 {
      assert Rates(f, 0, 1) == Rate(f, 0) + Rates(f, 1, 0);
    } else {
      MulMono(n - 1, n, i);
      RatesBelowCap(f, n - 1);
      RatesSplit(f, 0, n, 1);
      assert Rates(f, n, 1) == Rate(f, n) + Rates(f, n + 1, 0);
      Triangle(n - 1);
      Distribute(i, FloorDiv((n - 1) * n, 2), n);
      Distribute(f.cliffFeeNumerator, n - 1, 1);
    }
  }

  /** Above it every chunk is charged the cap. */
  lemma {:induction false} RatesAboveCap(f: BaseFee, k: nat, n: nat)
    requires f.cliffFeeNumerator + Increment(f) * k > Cap(f)
    ensures Rates(f, k, n) == n * Cap(f)
    decreases n
  {
    hide Increment, Cap;
    if n > 0 {
      MulMono(k, k + 1, Increment(f));
      RatesAboveCap(f, k + 1, n - 1);
      Distribute(Cap(f), n - 1, 1);
    }
  }

  /** Chunk k is below the cap exactly up to the last index. */
  lemma CapBinds(f: BaseFee, k: nat)
    requires Increment(f) > 0 && Cap(f) >= f.cliffFeeNumerator
    ensures f.cliffFeeNumerator + Increment(f) * k <= Cap(f) <==> k <= MaxIndex(f)
  {
    FloorAdjoint(k, Cap(f) - f.cliffFeeNumerator, Increment(f));
  }

  // ---- the closed form is the walk ----

  /** More than one chunk, the cap not reached: a chunks and the rest of the next. */
  lemma ClosedBelowCap(f: BaseFee, a: nat, b: nat)
    requires b < f.referenceAmount && Increment(f) > 0 && Cap(f) >= f.cliffFeeNumerator && a < MaxIndex(f)
    ensures Walk(f, f.referenceAmount + (a * f.referenceAmount + b), 0)
         == Charge(f.referenceAmount, ChunkSum(f, a), b, f.cliffFeeNumerator + Increment(f) * (a + 1))
  {
    hide Walk, MaxIndex, Increment, Cap, ChunkSum;
    WalkByQuotient(f, a, b);
    CapBinds(f, a);
    CapBinds(f, a + 1);
    RatesBelowCap(f, a);
  }

  /** Past it: the climbing chunks, then everything at the cap. */
  lemma ClosedAtCap(f: BaseFee, a: nat, b: nat)
    requires b < f.referenceAmount && Increment(f) > 0 && Cap(f) >= f.cliffFeeNumerator && a >= MaxIndex(f)
    ensures Walk(f, f.referenceAmount + (a * f.referenceAmount + b), 0)
         == Charge(f.referenceAmount, ChunkSum(f, MaxIndex(f)),
                   Charge(a - MaxIndex(f), f.referenceAmount, b, 1), Cap(f))
  {
    hide Walk, MaxIndex, Increment, Cap, ChunkSum;
    var m, x0 := MaxIndex(f), f.referenceAmount;
    WalkByQuotient(f, a, b);
    CapBinds(f, m);
    CapBinds(f, m + 1);
    RatesBelowCap(f, m);
    RatesSplit(f, 0, m + 1, a - m);
    RatesAboveCap(f, m + 1, a - m);
    CapBinds(f, a + 1);
    CapsAddUp(x0, ChunkSum(f, m), a - m, b, Cap(f));
  }

  lemma CapsAddUp(x0: nat, climbed: nat, n: nat, b: nat, cap: nat)
    ensures x0 * (climbed + n * cap) + b * cap == x0 * climbed + (n * x0 + b) * cap
  {
    Distribute(x0, climbed, n * cap);
    MulAssoc(x0, n, cap);
    Distribute(cap, n * x0, b);
  }

  /** The closed form equals the chunk walk, for every input, exactly when the cap is not below the cliff
      or nothing is swapped: a cap below the cliff charges the cliff where the walk charges the cap. */
  lemma ClosedFormIsWalk(f: BaseFee, input: nat)
    requires f.referenceAmount > 0
    ensures Total(f, input) == Walk(f, input, 0) <==> f.cliffFeeNumerator <= Cap(f) || input == 0
  {
    hide Increment, Cap, MaxIndex, ChunkSum, Charge;
    var x0 := f.referenceAmount;
    if f.cliffFeeNumerator > Cap(f) {
      WalkAtFlatRate(f, input, 0, Cap(f));
      MulMono(Cap(f) + 1, f.cliffFeeNumerator, input);
      Distribute(input, Cap(f), 1);
    } else if Flat(f, input) {
      if input > x0 {
        WalkAtFlatRate(f, input, 0, f.cliffFeeNumerator);
      }
    } else {
      var a, b := FloorDiv(input - x0, x0), (input - x0) % x0;
      assert input - x0 == a * x0 + b;
      if a < MaxIndex(f) {
        ClosedBelowCap(f, a, b);
      } else {
        ClosedAtCap(f, a, b);
      }
    }
  }

  /** A schedule that cannot climb charges one rate throughout. */
  lemma {:induction false} WalkAtFlatRate(f: BaseFee, input: nat, k: nat, rate: nat)
    requires f.referenceAmount > 0
    requires if Cap(f) <= f.cliffFeeNumerator then rate == Cap(f) else Increment(f) == 0 && rate == f.cliffFeeNumerator
    ensures Walk(f, input, k) == input * rate
    decreases input
  {
    hide Increment, Cap, Rate;
    FlatRate(f, k, rate);
    if input > f.referenceAmount {
      WalkAtFlatRate(f, input - f.referenceAmount, k + 1, rate);
      Distribute(rate, input - f.referenceAmount, f.referenceAmount);
    }
  }

  lemma FlatRate(f: BaseFee, k: nat, rate: nat)
    requires if Cap(f) <= f.cliffFeeNumerator then rate == Cap(f) else Increment(f) == 0 && rate == f.cliffFeeNumerator
    ensures Rate(f, k) == rate
  {
    hide Increment, Cap;
  }

  /** What chunk k is charged: the cliff and the basis points of k increments, out of 10^9, but no more than the basis
      points of the cap. */
  lemma RateInBasisPoints(f: BaseFee, k: nat, rate: nat)
    ensures rate <= Rate(f, k)
       <==> rate * 10_000 <= f.cliffFeeNumerator * 10_000 + f.feeIncrementBps * 1_000_000_000 * k
            && rate * 10_000 <= f.maxFeeBps * 1_000_000_000
  {
    MulAssoc(f.feeIncrementBps, 100_000, k);
    IncrementTimes(f, k);
    var climbed := Increment(f) * k;
    hide Increment;
  }

  lemma IncrementTimes(f: BaseFee, k: nat)
    ensures f.feeIncrementBps * 1_000_000_000 * k == 10_000 * (Increment(f) * k)
  {
    var inc := f.feeIncrementBps;
    assert inc * 1_000_000_000 * k == 1_000_000_000 * (inc * k);
    assert inc * 100_000 * k == 100_000 * (inc * k);
  }

  /** A fee in tokens is a total in parts of 10^9 rounded up once, or out of range. */
  ghost predicate IsRoundedUp(fee: Result<nat, LimiterError>, total: nat) {
    && (fee.Ok? <==> total <= U64MAX * 1_000_000_000)
    && (fee.Ok? ==> forall k: nat :: fee.value <= k <==> total <= k * 1_000_000_000)
    && (fee.Err? ==> fee.error == ValueOutOfRange)
  }

  lemma RoundedUp(f: BaseFee, input: nat)
    requires f.mode == 2
    ensures IsRoundedUp(RateLimiterFee(f, input), Total(f, input))
  {
    hide Total;
    CeilAdjoint(Total(f, input), FEE_DENOMINATOR, U64MAX);
    forall k: nat ensures CeilDiv(Total(f, input), FEE_DENOMINATOR) <= k <==> Total(f, input) <= k * FEE_DENOMINATOR {
      CeilAdjoint(Total(f, input), FEE_DENOMINATOR, k);
    }
  }

  /** The fee in tokens is the walk's, rounded up once. */
  lemma FeeIsWalkRoundedOnce(f: BaseFee, input: nat)
    requires f.mode == 2 && f.referenceAmount > 0 && f.cliffFeeNumerator <= f.maxFeeBps * 100_000
    ensures IsRoundedUp(RateLimiterFee(f, input), Walk(f, input, 0))
  {
    hide Total, Walk, IsRoundedUp;
    ClosedFormIsWalk(f, input);
    RoundedUp(f, input);
  }

  /** Where the schedule cannot raise the fee, for want of chunks, of an increment or of room under the cap, and within
      the first chunk, the whole input is charged the cliff. No other mode has such a fee. */
  lemma FlatFee(f: BaseFee, input: nat)
    requires f.mode == 2
             ==> f.referenceAmount == 0 || f.feeIncrementBps == 0 || f.maxFeeBps * 100_000 <= f.cliffFeeNumerator
                 || input <= f.referenceAmount
    ensures if f.mode == 2 then IsRoundedUp(RateLimiterFee(f, input), input * f.cliffFeeNumerator)
            else RateLimiterFee(f, input) == Err(NotRateLimiter)
  {
    if f.mode == 2 {
      RoundedUp(f, input);
    }
    hide IsRoundedUp;
  }
}
