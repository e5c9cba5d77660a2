/** Raydium's concentrated-liquidity arithmetic: amounts between two sqrt prices, the price an input
    reaches, one swap step, and the fixed-price conversion of a resting limit order. */
module RaydiumMath {
  import opened Rounding
  import opened Wrappers

  const FEE_DENOMINATOR: nat := 1_000_000

  // ---- liquidity_math and sqrt_price_math ----

  function Min(a: nat, b: nat): nat { if a > b then b else a }

  function Max(a: nat, b: nat): nat { if a > b then a else b }

  /** How much token_0 a move is worth, rounding after each of the two divisions. */
  function DeltaAmount0(p: nat, q: nat, liquidity: nat, roundUp: bool): nat
    requires p > 0 && q > 0
  {
    var a, b := Min(p, q), Max(p, q);
    var num := liquidity * Q64 * (b - a);
    if roundUp then CeilDiv(CeilDiv(num, b), a) else FloorDiv(FloorDiv(num, b), a)
  }

  /** How much token_1 a move is worth. */
  function DeltaAmount1(p: nat, q: nat, liquidity: nat, roundUp: bool): nat {
    var product := liquidity * (Max(p, q) - Min(p, q));
    if roundUp then CeilDiv(product, Q64) else FloorDiv(product, Q64)
  }

  /** The sqrt price after adding `amount` of the input token, rounded towards the current price. */
  function NextSqrtPrice(price: nat, liquidity: nat, amount: nat, zeroForOne: bool): nat
    requires price > 0 && liquidity > 0
  {
    if amount == 0 then price
    else if zeroForOne then
      Positive(liquidity, Q64);
      CeilDiv(liquidity * Q64 * price, liquidity * Q64 + amount * price)
    else price + FloorDiv(amount * Q64, liquidity)
  }

  /** The input that moves the price from p to q, rounded up. */
  function InputDelta(p: nat, q: nat, liquidity: nat, zeroForOne: bool): nat
    requires p > 0 && q > 0
  {
    if zeroForOne then DeltaAmount0(q, p, liquidity, true) else DeltaAmount1(p, q, liquidity, true)
  }

  /** The output paid for moving the price from p to q, rounded down. */
  function OutputDelta(p: nat, q: nat, liquidity: nat, zeroForOne: bool): nat
    requires p > 0 && q > 0
  {
    if zeroForOne then DeltaAmount1(q, p, liquidity, false) else DeltaAmount0(p, q, liquidity, false)
  }

  /** q lies at or past p in the swap direction. */
  predicate Ahead(p: nat, q: nat, zeroForOne: bool) {
    if zeroForOne then q <= p else p <= q
  }

  /** An input of k moves the price from p to q exactly when it pays for the exact amount. */
  lemma InputAdjoint(p: nat, q: nat, liquidity: nat, zeroForOne: bool, k: nat)
    requires p > 0 && q > 0 && Ahead(p, q, zeroForOne)
    ensures InputDelta(p, q, liquidity, zeroForOne) <= k
       <==> if zeroForOne then liquidity * Q64 * (p - q) <= k * (q * p) else liquidity * (q - p) <= k * Q64
  {
    if zeroForOne {
      var num := liquidity * Q64 * (p - q);
      CeilNested(num, p, q);
      CeilAdjoint(num, q * p, k);
    } else {
      CeilAdjoint(liquidity * (q - p), Q64, k);
    }
  }

  lemma OutputAdjoint(p: nat, q: nat, liquidity: nat, zeroForOne: bool, k: nat)
    requires p > 0 && q > 0 && Ahead(p, q, zeroForOne)
    ensures k <= OutputDelta(p, q, liquidity, zeroForOne)
       <==> if zeroForOne then k * Q64 <= liquidity * (p - q) else k * (p * q) <= liquidity * Q64 * (q - p)
  {
    if zeroForOne {
      FloorAdjoint(k, liquidity * (p - q), Q64);
    } else {
      var num := liquidity * Q64 * (q - p);
      FloorNested(num, q, p);
      FloorAdjoint(k, num, p * q);
    }
  }

  /** Moving along the curve: the price an input reaches is past q exactly when the input covers the
      rounded-up cost of q. Directed rounding, overshoot and cost bounds all follow from this. */
  lemma ReachAdjoint(p: nat, q: nat, liquidity: nat, zeroForOne: bool, amount: nat)
    requires p > 0 && q > 0 && liquidity > 0 && Ahead(p, q, zeroForOne)
    ensures Ahead(q, NextSqrtPrice(p, liquidity, amount, zeroForOne), zeroForOne)
       <==> InputDelta(p, q, liquidity, zeroForOne) <= amount
  {
    InputAdjoint(p, q, liquidity, zeroForOne, amount);
    if zeroForOne {
      ReachDown(p, q, liquidity, amount);
    } else {
      ReachUp(p, q, liquidity, amount);
    }
  }

  lemma ReachDown(p: nat, q: nat, liquidity: nat, amount: nat)
    requires p > 0 && 0 < q <= p && liquidity > 0
    ensures NextSqrtPrice(p, liquidity, amount, true) <= q <==> liquidity * Q64 * (p - q) <= amount * (q * p)
  {
    hide CeilDiv;
    Positive(liquidity, Q64);
    var n := liquidity * Q64;
    if amount == 0 {
      if q < p {
        Positive(n, p - q);
      }
    } else {
      CeilAdjoint(n * p, n + amount * p, q);
      MovedBalance(n, p, q, amount);
    }
  }

  lemma MovedBalance(n: nat, p: nat, q: nat, amount: nat)
    requires q <= p
    ensures n * p <= q * (n + amount * p) <==> n * (p - q) <= amount * (q * p)
  {
    Distribute(q, n, amount * p);
    Distribute(n, p, q);
    MulAssoc(q, amount, p);
    MulAssoc(amount, q, p);
  }

  lemma ReachUp(p: nat, q: nat, liquidity: nat, amount: nat)
    requires 0 < p <= q && liquidity > 0
    ensures q <= NextSqrtPrice(p, liquidity, amount, false) <==> liquidity * (q - p) <= amount * Q64
  {
    if amount == 0 {
      if p < q {
        Positive(liquidity, q - p);
      }
    } else {
      FloorAdjoint(q - p, amount * Q64, liquidity);
    }
  }

  lemma InputDeltaSame(p: nat, liquidity: nat, zeroForOne: bool)
    requires p > 0
    ensures InputDelta(p, p, liquidity, zeroForOne) == 0
  {
    InputAdjoint(p, p, liquidity, zeroForOne, 0);
  }

  /** The price an input reaches is ahead, positive, and costs no more than the input. */
  lemma NextPriceSound(p: nat, liquidity: nat, amount: nat, zeroForOne: bool)
    requires p > 0 && liquidity > 0
    ensures var next := NextSqrtPrice(p, liquidity, amount, zeroForOne);
            next > 0 && Ahead(p, next, zeroForOne) && InputDelta(p, next, liquidity, zeroForOne) <= amount
  {
    var next := NextSqrtPrice(p, liquidity, amount, zeroForOne);
    InputDeltaSame(p, liquidity, zeroForOne);
    ReachAdjoint(p, p, liquidity, zeroForOne, amount);
    assert next > 0 by {
      NextPricePositive(p, liquidity, amount, zeroForOne);
    }
    ReachAdjoint(p, next, liquidity, zeroForOne, amount);
  }

  lemma NextPricePositive(p: nat, liquidity: nat, amount: nat, zeroForOne: bool)
    requires p > 0 && liquidity > 0
    ensures NextSqrtPrice(p, liquidity, amount, zeroForOne) > 0
  {
    if zeroForOne && amount > 0 {
      Positive(liquidity, Q64);
      Positive(liquidity * Q64, p);
      CeilAdjoint(liquidity * Q64 * p, liquidity * Q64 + amount * p, 0);
    }
  }

  /** More input reaches at least as far. */
  lemma NextPriceMono(p: nat, liquidity: nat, a: nat, b: nat, zeroForOne: bool)
    requires p > 0 && liquidity > 0 && a <= b
    ensures Ahead(NextSqrtPrice(p, liquidity, a, zeroForOne), NextSqrtPrice(p, liquidity, b, zeroForOne), zeroForOne)
  {
    NextPriceSound(p, liquidity, a, zeroForOne);
    ReachAdjoint(p, NextSqrtPrice(p, liquidity, a, zeroForOne), liquidity, zeroForOne, b);
  }

  /** Moving further never pays out less. */
  lemma OutputMono(p: nat, q: nat, r: nat, liquidity: nat, zeroForOne: bool)
    requires p > 0 && q > 0 && r > 0
    requires Ahead(p, q, zeroForOne) && Ahead(q, r, zeroForOne)
    ensures OutputDelta(p, q, liquidity, zeroForOne) <= OutputDelta(p, r, liquidity, zeroForOne)
  {
    var k := OutputDelta(p, q, liquidity, zeroForOne);
    OutputAdjoint(p, q, liquidity, zeroForOne, k);
    OutputAdjoint(p, r, liquidity, zeroForOne, k);
    if zeroForOne {
      MulMono(p - q, p - r, liquidity);
    } else {
      OutputFarther(p, q, r, liquidity * Q64, k);
    }
  }

  lemma OutputFarther(p: nat, q: nat, r: nat, n: nat, k: nat)
    requires 0 < p <= q <= r
    requires k * (p * q) <= n * (q - p)
    ensures k * (p * r) <= n * (r - p)
  {
    // k*p*q <= n*(q-p) gives k*p <= n, and then k*p*(r-q) <= n*(r-q).
    Distribute(n, q, p);
    MulMono(0, p, n);
    MulAssoc(k, p, q);
    if k * p > n {
      MulMono(n + 1, k * p, q);
      Distribute(q, n, 1);
    }
    MulMono(k * p, n, r - q);
    Distribute(k * p, r, q);
    Distribute(n, r, q);
    Distribute(n, r, p);
    MulAssoc(k, p, r);
  }

  // ---- swap_math ----

  /** One step of a swap. `amountIn` is what moved the price; with the fee on the input the trader
      also pays `fee`, with the fee on the output it is already out of `amountOut`. */
  datatype SwapStep = SwapStep(next: nat, amountIn: int, amountOut: int, fee: int) {
    function Consumed(feeOnInput: bool): int {
      if feeOnInput then amountIn + fee else amountIn
    }
  }

  /** The fee out of an amount, rounded up. */
  function FeeOn(amount: nat, feeRate: nat): (fee: nat)
    requires feeRate < FEE_DENOMINATOR
    ensures fee <= amount
  {
    FeeOffGross(amount, feeRate, FEE_DENOMINATOR);
    CeilDiv(amount * feeRate, FEE_DENOMINATOR)
  }

  /** The part of the input that moves the price. */
  function NetInput(remaining: nat, feeRate: nat, feeOnInput: bool): nat
    requires feeRate < FEE_DENOMINATOR
  {
    if feeOnInput then FloorDiv(remaining * (FEE_DENOMINATOR - feeRate), FEE_DENOMINATOR) else remaining
  }

  /** What is paid out of a gross output. */
  function NetOutput(gross: nat, feeRate: nat, feeOnInput: bool): (net: nat)
    requires feeRate < FEE_DENOMINATOR
    ensures net <= gross
  {
    if feeOnInput then gross else gross - FeeOn(gross, feeRate)
  }

  /** The fee on top of a net input, rounded up. */
  function GrossUpFee(net: nat, feeRate: nat): nat
    requires feeRate < FEE_DENOMINATOR
  {
    CeilDiv(net * feeRate, FEE_DENOMINATOR - feeRate)
  }

  /** The rounded-up input to the target, or nothing when it exceeds a u64. */
  function AmountInToTarget(current: nat, target: nat, liquidity: nat, zeroForOne: bool): Option<nat>
    requires current > 0 && target > 0
  {
    var amount := InputDelta(current, target, liquidity, zeroForOne);
    if amount > U64MAX then None else Some(amount)
  }

  lemma NoLiquidityIsFree(p: nat, q: nat, zeroForOne: bool)
    requires p > 0 && q > 0
    ensures InputDelta(p, q, 0, zeroForOne) == 0
  {
    CeilAdjoint(0, Max(p, q), 0);
    CeilAdjoint(0, Min(p, q), 0);
    CeilAdjoint(0, Q64, 0);
  }

  /** compute_swap for an exact input. */
  function ComputeSwapStep(current: nat, target: nat, liquidity: nat, remaining: nat, feeRate: nat,
                           zeroForOne: bool, feeOnInput: bool): SwapStep
    requires current > 0 && target > 0 && feeRate < FEE_DENOMINATOR
  {
    hide InputDelta, OutputDelta, NextSqrtPrice;
    var amountForCalc := NetInput(remaining, feeRate, feeOnInput);
    var toTarget := AmountInToTarget(current, target, liquidity, zeroForOne);
    var reaches := toTarget.Some? && toTarget.value <= amountForCalc;
    NoLiquidityIsFree(current, target, zeroForOne);
    var next := if reaches then target else NextSqrtPrice(current, liquidity, amountForCalc, zeroForOne);
    NextPositiveOrTarget(current, target, liquidity, amountForCalc, zeroForOne, reaches);
    var max := target == next;
    var amountIn: int := if max then toTarget.GetOr(0) else InputDelta(current, next, liquidity, zeroForOne);
    var gross := OutputDelta(current, next, liquidity, zeroForOne);
    if feeOnInput then
      var fee := if max then GrossUpFee(toTarget.GetOr(0), feeRate) else remaining - amountIn;
      SwapStep(next, amountIn, gross, fee)
    else
      var fee := FeeOn(gross, feeRate);
      SwapStep(next, if max then amountIn else remaining, gross - fee, fee)
  }

  lemma NextPositiveOrTarget(current: nat, target: nat, liquidity: nat, amount: nat, zeroForOne: bool, reaches: bool)
    requires current > 0 && target > 0 && (!reaches ==> liquidity > 0)
    ensures !reaches ==> NextSqrtPrice(current, liquidity, amount, zeroForOne) > 0
  {
    if !reaches {
      NextPricePositive(current, liquidity, amount, zeroForOne);
    }
  }

  /** A step whose input covers the target stops exactly on it and draws the exact cost. */
  lemma StepReaches(current: nat, target: nat, liquidity: nat, remaining: nat, feeRate: nat,
                    zeroForOne: bool, feeOnInput: bool)
    requires current > 0 && target > 0 && feeRate < FEE_DENOMINATOR && remaining <= U64MAX
    requires InputDelta(current, target, liquidity, zeroForOne) <= NetInput(remaining, feeRate, feeOnInput)
    ensures var step := ComputeSwapStep(current, target, liquidity, remaining, feeRate, zeroForOne, feeOnInput);
            && step.next == target
            && step.amountIn == InputDelta(current, target, liquidity, zeroForOne)
            && step.amountOut == NetOutput(OutputDelta(current, target, liquidity, zeroForOne), feeRate, feeOnInput)
            && (feeOnInput ==> step.fee == GrossUpFee(InputDelta(current, target, liquidity, zeroForOne), feeRate))
            && 0 <= step.fee && step.Consumed(feeOnInput) <= remaining
  {
    hide InputDelta, OutputDelta, NextSqrtPrice;
    FeeOffGross(remaining, feeRate, FEE_DENOMINATOR);
    FeeAdjoint(InputDelta(current, target, liquidity, zeroForOne), remaining, feeRate, FEE_DENOMINATOR);
  }

  /** A step whose input does not cover the target stops strictly short of it and draws the whole
      remaining input. In particular the absent `amountToTarget` is never read. */
  lemma StepStops(current: nat, target: nat, liquidity: nat, remaining: nat, feeRate: nat,
                  zeroForOne: bool, feeOnInput: bool)
    requires current > 0 && target > 0 && feeRate < FEE_DENOMINATOR && remaining <= U64MAX
    requires Ahead(current, target, zeroForOne)
    requires NetInput(remaining, feeRate, feeOnInput) < InputDelta(current, target, liquidity, zeroForOne)
    ensures liquidity > 0
    ensures var step := ComputeSwapStep(current, target, liquidity, remaining, feeRate, zeroForOne, feeOnInput);
            var net := NetInput(remaining, feeRate, feeOnInput);
            && step.next == NextSqrtPrice(current, liquidity, net, zeroForOne) > 0
            && Ahead(current, step.next, zeroForOne) && !Ahead(target, step.next, zeroForOne)
            && InputDelta(current, step.next, liquidity, zeroForOne) <= net <= remaining
            && step.amountOut == NetOutput(OutputDelta(current, step.next, liquidity, zeroForOne), feeRate, feeOnInput)
            && 0 <= step.amountIn <= remaining && 0 <= step.fee
            && step.Consumed(feeOnInput) == remaining
            && (feeOnInput ==> step.amountIn == InputDelta(current, step.next, liquidity, zeroForOne))
  {
    hide InputDelta, OutputDelta, NextSqrtPrice;
    NoLiquidityIsFree(current, target, zeroForOne);
    var net := NetInput(remaining, feeRate, feeOnInput);
    FeeOffGross(remaining, feeRate, FEE_DENOMINATOR);
    NextPriceSound(current, liquidity, net, zeroForOne);
    ReachAdjoint(current, target, liquidity, zeroForOne, net);
  }

  lemma NetOutputMono(x: nat, y: nat, feeRate: nat, feeOnInput: bool)
    requires feeRate < FEE_DENOMINATOR && x <= y
    ensures NetOutput(x, feeRate, feeOnInput) <= NetOutput(y, feeRate, feeOnInput)
  {
    FeeOffGross(x, feeRate, FEE_DENOMINATOR);
    FeeOffGross(y, feeRate, FEE_DENOMINATOR);
    NetMono(x, y, feeRate, FEE_DENOMINATOR);
  }

  lemma NetInputMono(x: nat, y: nat, feeRate: nat, feeOnInput: bool)
    requires feeRate < FEE_DENOMINATOR && x <= y
    ensures NetInput(x, feeRate, feeOnInput) <= NetInput(y, feeRate, feeOnInput)
  {
    NetMono(x, y, feeRate, FEE_DENOMINATOR);
  }

  /** What one step of a swap guarantees, whichever way it ends. */
  lemma StepSound(current: nat, target: nat, liquidity: nat, remaining: nat, feeRate: nat,
                  zeroForOne: bool, feeOnInput: bool)
    requires current > 0 && target > 0 && feeRate < FEE_DENOMINATOR && remaining <= U64MAX
    requires Ahead(current, target, zeroForOne)
    ensures var step := ComputeSwapStep(current, target, liquidity, remaining, feeRate, zeroForOne, feeOnInput);
            && step.next > 0 && Ahead(current, step.next, zeroForOne) && Ahead(step.next, target, zeroForOne)
            && 0 <= step.amountIn && 0 <= step.fee && 0 <= step.amountOut
            && step.Consumed(feeOnInput) <= remaining
            && (step.next != target ==> step.Consumed(feeOnInput) == remaining)
            && InputDelta(current, step.next, liquidity, zeroForOne) <= step.Consumed(feeOnInput)
            && step.amountOut <= OutputDelta(current, step.next, liquidity, zeroForOne)
  {
    hide InputDelta, OutputDelta, NextSqrtPrice, ComputeSwapStep;
    var step := ComputeSwapStep(current, target, liquidity, remaining, feeRate, zeroForOne, feeOnInput);
    if InputDelta(current, target, liquidity, zeroForOne) <= NetInput(remaining, feeRate, feeOnInput) {
      StepReaches(current, target, liquidity, remaining, feeRate, zeroForOne, feeOnInput);
    } else {
      StepStops(current, target, liquidity, remaining, feeRate, zeroForOne, feeOnInput);
    }
  }

  /** With more input a step does the same, unless the smaller input ran out in it: then the larger
      one draws and pays at least as much. */
  lemma StepLockstep(current: nat, target: nat, liquidity: nat, a: nat, b: nat, feeRate: nat,
                     zeroForOne: bool, feeOnInput: bool)
    requires current > 0 && target > 0 && feeRate < FEE_DENOMINATOR && a <= b <= U64MAX
    requires Ahead(current, target, zeroForOne)
    ensures var small := ComputeSwapStep(current, target, liquidity, a, feeRate, zeroForOne, feeOnInput);
            var large := ComputeSwapStep(current, target, liquidity, b, feeRate, zeroForOne, feeOnInput);
            && small.Consumed(feeOnInput) <= large.Consumed(feeOnInput)
            && (|| (small == large && small.next == target)
                || (small.next != target && small.Consumed(feeOnInput) == a && small.amountOut <= large.amountOut))
  {
    hide InputDelta, OutputDelta, NextSqrtPrice, ComputeSwapStep;
    NetInputMono(a, b, feeRate, feeOnInput);
    var cost := InputDelta(current, target, liquidity, zeroForOne);
    if cost <= NetInput(a, feeRate, feeOnInput) {
      BothReach(current, target, liquidity, a, b, feeRate, zeroForOne, feeOnInput);
    } else {
      StepStops(current, target, liquidity, a, feeRate, zeroForOne, feeOnInput);
      var small := ComputeSwapStep(current, target, liquidity, a, feeRate, zeroForOne, feeOnInput).next;
      var large := ComputeSwapStep(current, target, liquidity, b, feeRate, zeroForOne, feeOnInput).next;
      if cost <= NetInput(b, feeRate, feeOnInput) {
        StepReaches(current, target, liquidity, b, feeRate, zeroForOne, feeOnInput);
        FeeAdjoint(cost, a, feeRate, FEE_DENOMINATOR);
      } else {
        StepStops(current, target, liquidity, b, feeRate, zeroForOne, feeOnInput);
        NextPriceMono(current, liquidity, NetInput(a, feeRate, feeOnInput),
                      NetInput(b, feeRate, feeOnInput), zeroForOne);
      }
      OutputMono(current, small, large, liquidity, zeroForOne);
      NetOutputMono(OutputDelta(current, small, liquidity, zeroForOne),
                    OutputDelta(current, large, liquidity, zeroForOne),
                    feeRate, feeOnInput);
    }
  }

  lemma BothReach(current: nat, target: nat, liquidity: nat, a: nat, b: nat, feeRate: nat,
                  zeroForOne: bool, feeOnInput: bool)
    requires current > 0 && target > 0 && feeRate < FEE_DENOMINATOR && a <= b <= U64MAX
    requires InputDelta(current, target, liquidity, zeroForOne) <= NetInput(a, feeRate, feeOnInput)
    requires NetInput(a, feeRate, feeOnInput) <= NetInput(b, feeRate, feeOnInput)
    ensures ComputeSwapStep(current, target, liquidity, a, feeRate, zeroForOne, feeOnInput)
         == ComputeSwapStep(current, target, liquidity, b, feeRate, zeroForOne, feeOnInput)
    ensures ComputeSwapStep(current, target, liquidity, a, feeRate, zeroForOne, feeOnInput).next == target
  {
    hide InputDelta, OutputDelta, NextSqrtPrice;
    FeeOffGross(a, feeRate, FEE_DENOMINATOR);
  }

  // ---- one step, exactly ----

  /** An input that pays for the move from p to q. */
  predicate PaysFor(amount: int, p: nat, q: nat, liquidity: nat, zeroForOne: bool) {
    if zeroForOne then liquidity * Q64 * (p - q) <= amount * (q * p) else liquidity * (q - p) <= amount * Q64
  }

  /** An output the move from p to q is worth. */
  predicate IsWorth(amount: int, p: nat, q: nat, liquidity: nat, zeroForOne: bool) {
    if zeroForOne then amount * Q64 <= liquidity * (p - q) else amount * (p * q) <= liquidity * Q64 * (q - p)
  }

  predicate IsInput(amount: nat, p: nat, q: nat, liquidity: nat, zeroForOne: bool) {
    && PaysFor(amount, p, q, liquidity, zeroForOne)
    && (amount == 0 || !PaysFor(amount - 1, p, q, liquidity, zeroForOne))
  }

  predicate IsOutput(amount: nat, p: nat, q: nat, liquidity: nat, zeroForOne: bool) {
    IsWorth(amount, p, q, liquidity, zeroForOne) && !IsWorth(amount + 1, p, q, liquidity, zeroForOne)
  }

  lemma DeltasAreExact(p: nat, q: nat, liquidity: nat, zeroForOne: bool)
    requires p > 0 && q > 0 && Ahead(p, q, zeroForOne)
    ensures IsInput(InputDelta(p, q, liquidity, zeroForOne), p, q, liquidity, zeroForOne)
    ensures IsOutput(OutputDelta(p, q, liquidity, zeroForOne), p, q, liquidity, zeroForOne)
  {
    var input, output := InputDelta(p, q, liquidity, zeroForOne), OutputDelta(p, q, liquidity, zeroForOne);
    hide InputDelta, OutputDelta;
    InputAdjoint(p, q, liquidity, zeroForOne, input);
    if input > 0 {
      InputAdjoint(p, q, liquidity, zeroForOne, input - 1);
    }
    OutputAdjoint(p, q, liquidity, zeroForOne, output);
    OutputAdjoint(p, q, liquidity, zeroForOne, output + 1);
  }

  /** The furthest price an input pays for. */
  predicate IsFurthest(q: nat, amount: nat, p: nat, liquidity: nat, zeroForOne: bool) {
    && q > 0 && Ahead(p, q, zeroForOne) && PaysFor(amount, p, q, liquidity, zeroForOne)
    && var beyond := if zeroForOne then q - 1 else q + 1;
    beyond == 0 || !PaysFor(amount, p, beyond, liquidity, zeroForOne)
  }

  lemma NextPriceIsFurthest(p: nat, liquidity: nat, amount: nat, zeroForOne: bool)
    requires p > 0 && liquidity > 0
    ensures IsFurthest(NextSqrtPrice(p, liquidity, amount, zeroForOne), amount, p, liquidity, zeroForOne)
  {
    var q := NextSqrtPrice(p, liquidity, amount, zeroForOne);
    hide NextSqrtPrice, InputDelta;
    NextPriceSound(p, liquidity, amount, zeroForOne);
    InputAdjoint(p, q, liquidity, zeroForOne, amount);
    var beyond: nat := if zeroForOne then q - 1 else q + 1;
    if beyond > 0 {
      ReachAdjoint(p, beyond, liquidity, zeroForOne, amount);
      InputAdjoint(p, beyond, liquidity, zeroForOne, amount);
    }
  }

  /** The fee of a side, in millionths: on the input or on the output, never both. */
  lemma FeeShares(amount: nat, rate: nat, feeOnInput: bool)
    requires rate < FEE_DENOMINATOR
    ensures IsShare(NetInput(amount, rate, feeOnInput), amount, 1_000_000 - (if feeOnInput then rate else 0), 1_000_000)
    ensures IsShare(NetOutput(amount, rate, feeOnInput), amount,
                    1_000_000 - (if feeOnInput then 0 else rate), 1_000_000)
    ensures IsLeastGross(amount + GrossUpFee(amount, rate), amount, 1_000_000 - rate, 1_000_000)
  {
    FeeOffGross(amount, rate, FEE_DENOMINATOR);
    FloorIsShare(amount, 1_000_000 - rate, 1_000_000);
    GrossUpIsLeast(amount, rate, 1_000_000);
    hide FloorDiv, CeilDiv;
  }

  /** A step, from its net input, the price of reaching its target and its gross output: it reaches the target for the
      least input that leaves that price after the fee,
          or spends all it has and goes as far as the net input pays for. */
  predicate IsStep(next: nat, consumed: int, out: int, net: nat, cost: nat, gross: nat,
                   p: nat, target: nat, liquidity: nat,
                   remaining: nat, feeIn: nat, feeOut: nat, zeroForOne: bool)
  {
    && consumed >= 0 && out >= 0
    && IsShare(net, remaining, 1_000_000 - feeIn, 1_000_000) && IsInput(cost, p, target, liquidity, zeroForOne)
    && IsOutput(gross, p, next, liquidity, zeroForOne) && IsShare(out, gross, 1_000_000 - feeOut, 1_000_000)
    && if cost <= net then next == target && IsLeastGross(consumed, cost, 1_000_000 - feeIn, 1_000_000)
       else consumed == remaining && IsFurthest(next, net, p, liquidity, zeroForOne)
  }

  /** What a step trades, exactly, in both directions and with the fee on either side. */
  ghost predicate TradesTo(next: nat, consumed: int, out: int, p: nat, target: nat, liquidity: nat, remaining: nat,
                           feeIn: nat, feeOut: nat, zeroForOne: bool)
  {
    exists net, cost, gross ::
      IsStep(next, consumed, out, net, cost, gross, p, target, liquidity, remaining, feeIn, feeOut, zeroForOne)
  }

  lemma StepTrades(current: nat, target: nat, liquidity: nat, remaining: nat, feeRate: nat,
                   zeroForOne: bool, feeOnInput: bool)
    requires current > 0 && target > 0 && feeRate < FEE_DENOMINATOR && remaining <= U64MAX
    requires Ahead(current, target, zeroForOne)
    ensures var step := ComputeSwapStep(current, target, liquidity, remaining, feeRate, zeroForOne, feeOnInput);
            TradesTo(step.next, step.Consumed(feeOnInput), step.amountOut, current, target, liquidity, remaining,
                     if feeOnInput then feeRate else 0, if feeOnInput then 0 else feeRate, zeroForOne)
  {
    hide ComputeSwapStep, InputDelta, OutputDelta, NextSqrtPrice, NetInput, NetOutput,
      GrossUpFee, IsShare, IsLeastGross,
      IsInput, IsOutput, IsFurthest;
    var step := ComputeSwapStep(current, target, liquidity, remaining, feeRate, zeroForOne, feeOnInput);
    var net, cost := NetInput(remaining, feeRate, feeOnInput), InputDelta(current, target, liquidity, zeroForOne);
    var feeIn, feeOut := if feeOnInput then feeRate else 0, if feeOnInput then 0 else feeRate;
    StepSound(current, target, liquidity, remaining, feeRate, zeroForOne, feeOnInput);
    DeltasAreExact(current, target, liquidity, zeroForOne);
    DeltasAreExact(current, step.next, liquidity, zeroForOne);
    FeeShares(remaining, feeRate, feeOnInput);
    FeeShares(OutputDelta(current, step.next, liquidity, zeroForOne), feeRate, feeOnInput);
    FeeShares(cost, feeRate, feeOnInput);
    if cost <= net {
      StepReaches(current, target, liquidity, remaining, feeRate, zeroForOne, feeOnInput);
      Untaxed(cost);
    } else {
      StepStops(current, target, liquidity, remaining, feeRate, zeroForOne, feeOnInput);
      NextPriceIsFurthest(current, liquidity, net, zeroForOne);
    }
    assert IsStep(step.next, step.Consumed(feeOnInput), step.amountOut, net, cost,
                  OutputDelta(current, step.next, liquidity, zeroForOne), current, target, liquidity, remaining,
                  feeIn, feeOut, zeroForOne);
  }

  /** Without a fee the gross amount is the net one. */
  lemma Untaxed(amount: nat)
    ensures IsLeastGross(amount, amount, 1_000_000, 1_000_000)
  {
  }

  // ---- spot price ----

  /** `paid` for `spent` is no better than the spot price at sqrt price p. */
  predicate WithinSpot(paid: int, spent: int, p: nat, zeroForOne: bool) {
    if zeroForOne then paid * (Q64 * Q64) <= spent * (p * p) else paid * (p * p) <= spent * (Q64 * Q64)
  }

  lemma SpotOfNothing(p: nat, zeroForOne: bool)
    ensures WithinSpot(0, 0, p, zeroForOne)
  {
  }

  lemma SpotAdds(paid1: int, spent1: int, paid2: int, spent2: int, p: nat, zeroForOne: bool)
    requires WithinSpot(paid1, spent1, p, zeroForOne) && WithinSpot(paid2, spent2, p, zeroForOne)
    ensures WithinSpot(paid1 + paid2, spent1 + spent2, p, zeroForOne)
  {
    Distribute(p * p, paid1, paid2);
    Distribute(p * p, spent1, spent2);
  }

  /** A price further along is a worse deal. */
  lemma SpotWorsens(paid: nat, spent: nat, p: nat, q: nat, zeroForOne: bool)
    requires Ahead(p, q, zeroForOne) && WithinSpot(paid, spent, q, zeroForOne)
    ensures WithinSpot(paid, spent, p, zeroForOne)
  {
    if zeroForOne {
      SquareMono(q, p);
      MulMono(q * q, p * p, spent);
    } else {
      SquareMono(p, q);
      MulMono(p * p, q * q, paid);
    }
  }

  lemma SquareMono(a: nat, b: nat)
    requires a <= b
    ensures a * a <= b * b
  {
    MulMono(a, b, a);
    MulMono(a, b, b);
  }

  /** Moving along the curve never beats the price it starts from. */
  lemma CurveWithinSpot(p: nat, q: nat, liquidity: nat, zeroForOne: bool, paid: nat, spent: nat)
    requires p > 0 && q > 0 && Ahead(p, q, zeroForOne)
    requires paid <= OutputDelta(p, q, liquidity, zeroForOne)
    requires InputDelta(p, q, liquidity, zeroForOne) <= spent
    ensures WithinSpot(paid, spent, p, zeroForOne)
  {
    hide InputDelta, OutputDelta;
    OutputAdjoint(p, q, liquidity, zeroForOne, paid);
    InputAdjoint(p, q, liquidity, zeroForOne, spent);
    if zeroForOne {
      CurveSpotDown(p, q, liquidity, paid, spent);
    } else {
      CurveSpotUp(p, q, liquidity, paid, spent);
    }
  }

  lemma CurveSpotDown(p: nat, q: nat, liquidity: nat, paid: nat, spent: nat)
    requires q <= p
    requires paid * Q64 <= liquidity * (p - q)
    requires liquidity * Q64 * (p - q) <= spent * (q * p)
    ensures paid * (Q64 * Q64) <= spent * (p * p)
  {
    MulMono(paid * Q64, liquidity * (p - q), Q64);
    MulMono(q, p, p);
    MulMono(q * p, p * p, spent);
  }

  lemma CurveSpotUp(p: nat, q: nat, liquidity: nat, paid: nat, spent: nat)
    requires p <= q
    requires paid * (p * q) <= liquidity * Q64 * (q - p)
    requires liquidity * (q - p) <= spent * Q64
    ensures paid * (p * p) <= spent * (Q64 * Q64)
  {
    MulMono(liquidity * (q - p), spent * Q64, Q64);
    MulMono(p, q, p);
    MulMono(p * p, p * q, paid);
  }

  // ---- resting limit orders ----

  /** The Q64.64 price at a sqrt price. */
  function PriceFromSqrtPrice(sqrtPrice: nat, roundUp: bool): nat {
    var square := sqrtPrice * sqrtPrice;
    FloorDiv(if roundUp then square + (Q64 - 1) else square, Q64)
  }

  function LimitOrderOutput(amountIn: nat, price: nat, zeroForOne: bool): nat {
    if zeroForOne then FloorDiv(amountIn * price, Q64)
    else if price == 0 then 0
    else FloorDiv(amountIn * Q64, price)
  }

  function LimitOrderInput(amountOut: nat, price: nat, zeroForOne: bool): nat {
    if zeroForOne then CeilDiv(amountOut * price, Q64)
    else if price == 0 then 0
    else CeilDiv(amountOut * Q64, price)
  }

  /** The order's price is positive at any sqrt price a swap can trade at, and rounds against it. */
  lemma OrderPrice(sqrtPrice: nat, zeroForOne: bool)
    requires sqrtPrice * sqrtPrice >= Q64
    ensures var price := PriceFromSqrtPrice(sqrtPrice, !zeroForOne);
            && price > 0
            && if zeroForOne then price * Q64 <= sqrtPrice * sqrtPrice else sqrtPrice * sqrtPrice <= price * Q64
  {
    FloorAdjoint(1, sqrtPrice * sqrtPrice, Q64);
    FloorMono(sqrtPrice * sqrtPrice, sqrtPrice * sqrtPrice + (Q64 - 1), Q64);
  }

  /** The input an order asks for and the output it gives are adjoint: an input buys at least `out`
      exactly when it covers the rounded-up cost of `out`. */
  lemma OrderAdjoint(out: nat, amountIn: nat, price: nat, zeroForOne: bool)
    requires price > 0
    ensures out <= LimitOrderOutput(amountIn, price, zeroForOne)
       <==> LimitOrderInput(out, price, !zeroForOne) <= amountIn
  {
    if zeroForOne {
      FloorAdjoint(out, amountIn * price, Q64);
      CeilAdjoint(out * Q64, price, amountIn);
    } else {
      FloorAdjoint(out, amountIn * Q64, price);
      CeilAdjoint(out * price, Q64, amountIn);
    }
  }

  /** Filling at the tick's own rounded price never beats the tick's spot price. */
  lemma OrderWithinSpot(paid: nat, spent: nat, sqrtPrice: nat, zeroForOne: bool)
    requires sqrtPrice * sqrtPrice >= Q64
    requires LimitOrderInput(paid, PriceFromSqrtPrice(sqrtPrice, !zeroForOne), !zeroForOne) <= spent
    ensures WithinSpot(paid, spent, sqrtPrice, zeroForOne)
  {
    OrderPrice(sqrtPrice, zeroForOne);
    var price := PriceFromSqrtPrice(sqrtPrice, !zeroForOne);
    hide PriceFromSqrtPrice;
    if zeroForOne {
      CeilAdjoint(paid * Q64, price, spent);
      OrderSpotDown(paid, spent, price, sqrtPrice * sqrtPrice);
    } else {
      CeilAdjoint(paid * price, Q64, spent);
      OrderSpotUp(paid, spent, price, sqrtPrice * sqrtPrice);
    }
  }

  lemma OrderSpotDown(paid: nat, spent: nat, price: nat, square: nat)
    requires paid * Q64 <= spent * price && price * Q64 <= square
    ensures paid * (Q64 * Q64) <= spent * square
  {
    MulMono(paid * Q64, spent * price, Q64);
    MulMono(price * Q64, square, spent);
    MulAssoc(spent, price, Q64);
  }

  lemma OrderSpotUp(paid: nat, spent: nat, price: nat, square: nat)
    requires paid * price <= spent * Q64 && square <= price * Q64
    ensures paid * square <= spent * (Q64 * Q64)
  {
    MulMono(paid * price, spent * Q64, Q64);
    MulMono(square, price * Q64, paid);
    MulAssoc(paid, price, Q64);
  }

  // ---- one match, exactly ----

  /** The square of a sqrt price in Q64.64, rounded against the swap: down when token_0 is sold, up otherwise. */
  predicate IsOrderPrice(price: nat, sqrtPrice: nat, zeroForOne: bool) {
    if zeroForOne then price * Q64 <= sqrtPrice * sqrtPrice < price * Q64 + Q64
    else sqrtPrice * sqrtPrice <= price * Q64 < sqrtPrice * sqrtPrice + Q64
  }

  lemma OrderPriceIs(sqrtPrice: nat, zeroForOne: bool)
    ensures IsOrderPrice(PriceFromSqrtPrice(sqrtPrice, !zeroForOne), sqrtPrice, zeroForOne)
  {
  }

  /** An input that pays for `out` at an order's price. */
  predicate BuysOrder(amount: int, out: nat, price: nat, zeroForOne: bool) {
    if zeroForOne then out * Q64 <= amount * price else out * price <= amount * Q64
  }

  predicate IsOrderInput(amount: nat, out: nat, price: nat, zeroForOne: bool) {
    BuysOrder(amount, out, price, zeroForOne) && (amount == 0 || !BuysOrder(amount - 1, out, price, zeroForOne))
  }

  lemma OrderCovers(amount: nat, out: nat, price: nat, zeroForOne: bool)
    requires price > 0
    ensures LimitOrderInput(out, price, !zeroForOne) <= amount <==> BuysOrder(amount, out, price, zeroForOne)
  {
    if zeroForOne {
      CeilAdjoint(out * Q64, price, amount);
    } else {
      CeilAdjoint(out * price, Q64, amount);
    }
  }

  lemma OrderInputIs(out: nat, price: nat, zeroForOne: bool)
    requires price > 0
    ensures IsOrderInput(LimitOrderInput(out, price, !zeroForOne), out, price, zeroForOne)
  {
    var amount := LimitOrderInput(out, price, !zeroForOne);
    hide LimitOrderInput;
    OrderCovers(amount, out, price, zeroForOne);
    if amount > 0 {
      OrderCovers(amount - 1, out, price, zeroForOne);
    }
  }

  /** A match, from its net input, the price of the whole book and the price of the order: all of the book for the least
      input that leaves its price after the fee, when more could be bought; otherwise as much as the net input buys, for
      all that is left. */
  predicate IsMatch(consumed: int, paid: int, filled: int, net: nat, drawn: nat,
                    price: nat, remaining: nat, unfilled: nat,
                    sqrtPrice: nat, feeIn: nat, feeOut: nat, zeroForOne: bool)
  {
    && consumed >= 0 && paid >= 0 && 0 <= filled <= unfilled
    && IsOrderPrice(price, sqrtPrice, zeroForOne) && IsShare(net, remaining, 1_000_000 - feeIn, 1_000_000)
    && IsOrderInput(drawn, unfilled, price, zeroForOne) && IsShare(paid, filled, 1_000_000 - feeOut, 1_000_000)
    && if BuysOrder(net, unfilled + 1, price, zeroForOne)
       then filled == unfilled && IsLeastGross(consumed, drawn, 1_000_000 - feeIn, 1_000_000)
       else && consumed == remaining && BuysOrder(net, filled, price, zeroForOne)
            && !BuysOrder(net, filled + 1, price, zeroForOne)
  }

  /** What a match trades, exactly; nothing without input or without orders. */
  ghost predicate Matches(consumed: int, paid: int, filled: int, remaining: nat, unfilled: nat, sqrtPrice: nat,
                          feeIn: nat, feeOut: nat, zeroForOne: bool)
  {
    if remaining == 0 || unfilled == 0 then consumed == paid == filled == 0
    else exists net, drawn, price ::
           IsMatch(consumed, paid, filled, net, drawn, price, remaining, unfilled, sqrtPrice, feeIn, feeOut, zeroForOne)
  }
}
