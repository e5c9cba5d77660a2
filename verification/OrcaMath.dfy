/** Orca's concentrated-liquidity arithmetic and its swap step, and the proof that the step agrees with
    Raydium's fee-on-input step although the two round their token_0 amounts by different formulas. */
module OrcaMath {
  import opened Rounding
  import opened Wrappers
  import opened MachineIntegers
  import R = RaydiumMath

  const FEE_RATE_MUL: nat := 1_000_000

  datatype Error = InvalidPool | AmountOverflow | NegativeLiquidity | DivideByZero

  // ---- curve_math ----

  /** How much token A a move is worth, with one rounding. */
  function DeltaAmountA(p: nat, q: nat, liquidity: nat, roundUp: bool): nat {
    var lower, upper := R.Min(p, q), R.Max(p, q);
    if upper * lower == 0 then 0
    else
      var numerator := liquidity * (upper - lower) * Q64;
      if roundUp then CeilDiv(numerator, upper * lower) else FloorDiv(numerator, upper * lower)
  }

  function DeltaAmountB(p: nat, q: nat, liquidity: nat, roundUp: bool): nat {
    var product := liquidity * (R.Max(p, q) - R.Min(p, q));
    if roundUp then CeilDiv(product, Q64) else FloorDiv(product, Q64)
  }

  /** The sqrt price after an exact input, towards the current price. */
  function NextSqrtPrice(price: nat, liquidity: nat, amount: nat, aToB: bool): Result<nat, Error> {
    if aToB then
      if amount == 0 then Ok(price)
      else
        var denominator := liquidity * Q64 + price * amount;
        if denominator == 0 then Err(DivideByZero) else Ok(CeilDiv(liquidity * price * Q64, denominator))
    else if liquidity == 0 then Err(DivideByZero)
    else Ok(price + FloorDiv(amount * Q64, liquidity))
  }

  /** The input-token delta of a move, rounded up. */
  function FixedDelta(current: nat, target: nat, liquidity: nat, aToB: bool): nat {
    if aToB then DeltaAmountA(current, target, liquidity, true) else DeltaAmountB(current, target, liquidity, true)
  }

  /** The output-token delta of a move, rounded down. */
  function UnfixedDelta(current: nat, next: nat, liquidity: nat, aToB: bool): nat {
    if aToB then DeltaAmountB(current, next, liquidity, false) else DeltaAmountA(current, next, liquidity, false)
  }

  // ---- the swap step ----

  datatype SwapStep = SwapStep(amountIn: nat, amountOut: nat, feeAmount: nat, nextPrice: nat)

  function ToU64(v: int): Result<nat, Error> {
    if v < 0 || v > U64MAX then Err(AmountOverflow) else Ok(v)
  }

  /** All that remains when the step stopped short, else the fee grossed up from the input. */
  function StepFee(remaining: nat, amountIn: nat, fixedIn: nat, feeRate: nat, isMaxSwap: bool): Result<nat, Error>
    requires feeRate < FEE_RATE_MUL
  {
    if !isMaxSwap then Ok(Uint64(remaining - amountIn)) else ToU64(R.GrossUpFee(fixedIn, feeRate))
  }

  /** compute_swap for an exact input: the fee comes off the input before the price moves. */
  function ComputeSwapStep(remaining: nat, feeRate: nat, liquidity: nat, current: nat,
                           target: nat, aToB: bool): Result<SwapStep, Error>
    requires feeRate < FEE_RATE_MUL
  {
    var amountCalc := FloorDiv(remaining * (FEE_RATE_MUL - feeRate), FEE_RATE_MUL);
    var initialFixed := FixedDelta(current, target, liquidity, aToB);
    var exceedsMax := initialFixed > U64MAX;
    var next :- if !exceedsMax && initialFixed <= amountCalc then Ok(target)
                else NextSqrtPrice(current, liquidity, amountCalc, aToB);
    var isMaxSwap := next == target;
    var fixedIn := if !isMaxSwap || exceedsMax then FixedDelta(current, next, liquidity, aToB) else initialFixed;
    var amountIn :- ToU64(fixedIn);
    var amountOut :- ToU64(UnfixedDelta(current, next, liquidity, aToB));
    var feeAmount :- StepFee(remaining, amountIn, fixedIn, feeRate, isMaxSwap);
    Ok(SwapStep(amountIn, amountOut, feeAmount, next))
  }

  // ---- agreement with Raydium ----

  /** The single ceiling (or floor) of token-A amounts equals Raydium's two-step one. */
  lemma DeltaAmountAgrees(p: nat, q: nat, liquidity: nat, roundUp: bool)
    requires p > 0 && q > 0
    ensures DeltaAmountA(p, q, liquidity, roundUp) == R.DeltaAmount0(p, q, liquidity, roundUp)
  {
    var lower, upper := R.Min(p, q), R.Max(p, q);
    Positive(upper, lower);
    var numerator := liquidity * (upper - lower) * Q64;
    assert numerator == liquidity * Q64 * (upper - lower);
    CeilNested(numerator, upper, lower);
    FloorNested(numerator, upper, lower);
  }

  lemma FixedAgrees(current: nat, target: nat, liquidity: nat, aToB: bool)
    requires current > 0 && target > 0
    ensures FixedDelta(current, target, liquidity, aToB) == R.InputDelta(current, target, liquidity, aToB)
    ensures UnfixedDelta(current, target, liquidity, aToB) == R.OutputDelta(current, target, liquidity, aToB)
  {
    hide DeltaAmountA, R.DeltaAmount0;
    DeltaAmountAgrees(current, target, liquidity, true);
    DeltaAmountAgrees(current, target, liquidity, false);
    DeltaSymmetric(current, target, liquidity);
  }

  lemma DeltaSymmetric(p: nat, q: nat, liquidity: nat)
    requires p > 0 && q > 0
    ensures R.DeltaAmount0(p, q, liquidity, true) == R.DeltaAmount0(q, p, liquidity, true)
    ensures R.DeltaAmount1(p, q, liquidity, false) == R.DeltaAmount1(q, p, liquidity, false)
  {
  }

  lemma NextAgrees(price: nat, liquidity: nat, amount: nat, aToB: bool)
    requires price > 0 && liquidity > 0
    ensures NextSqrtPrice(price, liquidity, amount, aToB) == Ok(R.NextSqrtPrice(price, liquidity, amount, aToB))
  {
    Positive(liquidity, Q64);
    assert liquidity * price * Q64 == liquidity * Q64 * price;
    FloorUnique(0, 0, liquidity);
  }

  /** An input that does not cover the target never lands on it, whichever side the target is on. */
  lemma PartialMissesTarget(current: nat, target: nat, liquidity: nat, net: nat, aToB: bool)
    requires current > 0 && target > 0
    requires net < R.InputDelta(current, target, liquidity, aToB)
    ensures liquidity > 0
    ensures R.NextSqrtPrice(current, liquidity, net, aToB) != target
    ensures R.NextSqrtPrice(current, liquidity, net, aToB) > 0
    ensures R.InputDelta(current, R.NextSqrtPrice(current, liquidity, net, aToB), liquidity, aToB) <= net
  {
    hide R.InputDelta, R.NextSqrtPrice;
    R.NoLiquidityIsFree(current, target, aToB);
    R.NextPriceSound(current, liquidity, net, aToB);
    if R.Ahead(current, target, aToB) {
      R.ReachAdjoint(current, target, liquidity, aToB, net);
    }
  }

  /** A Raydium step written as an Orca one. */
  function AsOrca(step: R.SwapStep): Result<SwapStep, Error> {
    if step.amountIn < 0 || step.fee < 0 || step.amountOut < 0 || step.amountOut > U64MAX then Err(AmountOverflow)
    else Ok(SwapStep(step.amountIn, step.amountOut, step.fee, step.next))
  }

  /** Step equivalence: on every input the Orca step is Raydium's fee-on-input step; it fails exactly
      when the output does not fit a u64. */
  lemma StepsAgree(remaining: nat, feeRate: nat, liquidity: nat, current: nat, target: nat, aToB: bool)
    requires current > 0 && target > 0 && feeRate < FEE_RATE_MUL && remaining <= U64MAX
    ensures ComputeSwapStep(remaining, feeRate, liquidity, current, target, aToB)
         == AsOrca(R.ComputeSwapStep(current, target, liquidity, remaining, feeRate, aToB, true))
  {
    hide ComputeSwapStep, R.ComputeSwapStep, R.InputDelta, R.NetInput;
    if R.InputDelta(current, target, liquidity, aToB) <= R.NetInput(remaining, feeRate, true) {
      ReachingStepsAgree(remaining, feeRate, liquidity, current, target, aToB);
    } else {
      StoppingStepsAgree(remaining, feeRate, liquidity, current, target, aToB);
    }
  }

  lemma ReachingStepsAgree(remaining: nat, feeRate: nat, liquidity: nat, current: nat, target: nat, aToB: bool)
    requires current > 0 && target > 0 && feeRate < FEE_RATE_MUL && remaining <= U64MAX
    requires R.InputDelta(current, target, liquidity, aToB) <= R.NetInput(remaining, feeRate, true)
    ensures ComputeSwapStep(remaining, feeRate, liquidity, current, target, aToB)
         == AsOrca(R.ComputeSwapStep(current, target, liquidity, remaining, feeRate, aToB, true))
  {
    hide FixedDelta, UnfixedDelta, NextSqrtPrice, R.InputDelta, R.OutputDelta, R.NextSqrtPrice, R.GrossUpFee, FloorDiv;
    FixedAgrees(current, target, liquidity, aToB);
    R.StepReaches(current, target, liquidity, remaining, feeRate, aToB, true);
    FeeOffGross(remaining, feeRate, FEE_RATE_MUL);
  }

  lemma StoppingStepsAgree(remaining: nat, feeRate: nat, liquidity: nat, current: nat, target: nat, aToB: bool)
    requires current > 0 && target > 0 && feeRate < FEE_RATE_MUL && remaining <= U64MAX
    requires R.InputDelta(current, target, liquidity, aToB) > R.NetInput(remaining, feeRate, true)
    ensures ComputeSwapStep(remaining, feeRate, liquidity, current, target, aToB)
         == AsOrca(R.ComputeSwapStep(current, target, liquidity, remaining, feeRate, aToB, true))
  {
    hide ComputeSwapStep, R.ComputeSwapStep, R.InputDelta, R.OutputDelta, R.NextSqrtPrice;
    FeeOffGross(remaining, feeRate, FEE_RATE_MUL);
    PartialMissesTarget(current, target, liquidity, R.NetInput(remaining, feeRate, true), aToB);
    RaydiumStops(remaining, feeRate, liquidity, current, target, aToB);
    WhirlpoolStops(remaining, feeRate, liquidity, current, target, aToB);
  }

  lemma RaydiumStops(remaining: nat, feeRate: nat, liquidity: nat, current: nat, target: nat, aToB: bool)
    requires current > 0 && target > 0 && liquidity > 0 && feeRate < FEE_RATE_MUL
    requires R.InputDelta(current, target, liquidity, aToB) > R.NetInput(remaining, feeRate, true)
    requires var next := R.NextSqrtPrice(current, liquidity, R.NetInput(remaining, feeRate, true), aToB);
             next != target && next > 0
    ensures var next := R.NextSqrtPrice(current, liquidity, R.NetInput(remaining, feeRate, true), aToB);
            var amountIn := R.InputDelta(current, next, liquidity, aToB);
            R.ComputeSwapStep(current, target, liquidity, remaining, feeRate, aToB, true)
            == R.SwapStep(next, amountIn, R.OutputDelta(current, next, liquidity, aToB), remaining - amountIn)
  {
    hide R.InputDelta, R.OutputDelta, R.NextSqrtPrice, R.NetInput;
  }

  lemma WhirlpoolStops(remaining: nat, feeRate: nat, liquidity: nat, current: nat, target: nat, aToB: bool)
    requires current > 0 && target > 0 && liquidity > 0 && feeRate < FEE_RATE_MUL && remaining <= U64MAX
    requires R.InputDelta(current, target, liquidity, aToB) > R.NetInput(remaining, feeRate, true)
    requires var net := R.NetInput(remaining, feeRate, true);
             var next := R.NextSqrtPrice(current, liquidity, net, aToB);
             next != target && next > 0 && R.InputDelta(current, next, liquidity, aToB) <= net <= remaining
    ensures var next := R.NextSqrtPrice(current, liquidity, R.NetInput(remaining, feeRate, true), aToB);
            var amountIn, out := R.InputDelta(current, next, liquidity, aToB),
                                 R.OutputDelta(current, next, liquidity, aToB);
            ComputeSwapStep(remaining, feeRate, liquidity, current, target, aToB)
            == if out > U64MAX then Err(AmountOverflow) else Ok(SwapStep(amountIn, out, remaining - amountIn, next))
  {
    hide FixedDelta, UnfixedDelta, NextSqrtPrice, R.InputDelta, R.OutputDelta, R.NextSqrtPrice, FloorDiv;
    var net := R.NetInput(remaining, feeRate, true);
    FixedAgrees(current, target, liquidity, aToB);
    NextAgrees(current, liquidity, net, aToB);
    FixedAgrees(current, R.NextSqrtPrice(current, liquidity, net, aToB), liquidity, aToB);
  }
}
