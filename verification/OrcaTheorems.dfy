/** What every Orca run guarantees beyond one swap: a larger input never buys or consumes less, and a run
    fails only where its output or its liquidity leaves its range. */
module OrcaTheorems {
  import opened Rounding
  import opened Wrappers
  import opened TickTables
  import opened TickMath
  import opened OrcaMath
  import opened OrcaFee
  import opened OrcaRun
  import R = RaydiumMath

  // ---- a larger input never buys less ----

  /** Two runs that differ only in what is left of the input. */
  predicate Twin(s: State, t: State) {
    t == s.(remaining := t.remaining) && s.remaining <= t.remaining
  }

  /** From the twins s and t the two runs drew the same and are twins again. */
  predicate InStep(s: State, t: State, small: State, large: State) {
    Twin(small, large) && s.remaining - small.remaining == t.remaining - large.remaining
  }

  /** The smaller run has spent its input; the larger was paid and drew at least as much. */
  predicate Spent(s: State, t: State, small: State, large: State) {
    small.remaining == 0 && small.out <= large.out && s.remaining <= t.remaining - large.remaining
  }

  /** One step under two inputs. */
  lemma SwapLockstep(s: State, t: State, bounded: nat, feeRate: nat, aToB: bool)
    requires Twin(s, t) && s.sqrtPrice > 0 && bounded > 0 && feeRate < FEE_RATE_MUL && t.remaining <= U64MAX
    requires R.Ahead(s.sqrtPrice, bounded, aToB)
    requires ComputeSwapStep(t.remaining, feeRate, t.liquidity, t.sqrtPrice, bounded, aToB).Ok?
    ensures var small := ComputeSwapStep(s.remaining, feeRate, s.liquidity, s.sqrtPrice, bounded, aToB);
            var large := ComputeSwapStep(t.remaining, feeRate, t.liquidity, t.sqrtPrice, bounded, aToB).value;
            && small.Ok?
            && (|| (small.value == large && large.nextPrice == bounded)
                || (&& small.value.nextPrice != bounded && small.value.amountOut <= large.amountOut
                    && small.value.amountIn + small.value.feeAmount == s.remaining <= large.amountIn + large.feeAmount))
  {
    hide ComputeSwapStep, R.ComputeSwapStep, R.InputDelta, R.OutputDelta;
    StepsAgree(s.remaining, feeRate, s.liquidity, s.sqrtPrice, bounded, aToB);
    StepsAgree(t.remaining, feeRate, t.liquidity, t.sqrtPrice, bounded, aToB);
    R.StepSound(s.sqrtPrice, bounded, s.liquidity, s.remaining, feeRate, aToB, true);
    R.StepLockstep(s.sqrtPrice, bounded, s.liquidity, s.remaining, t.remaining, feeRate, aToB, true);
  }

  /** Arriving does not look at the amounts. */
  lemma ArriveIgnoresAmounts(s: State, remaining: nat, out: nat, next: nat, b: Boundary, aToB: bool)
    requires MIN_SQRT_PRICE <= next
    ensures Arrive(s.(remaining := remaining, out := out), next, b, aToB)
         == match Arrive(s, next, b, aToB) case Ok(n) => Ok(n.(remaining := remaining, out := out))
                                           case Err(e) => Err(e)
    ensures next != OrcaPrice(b.tickIndex) ==> Arrive(s, next, b, aToB).Ok?
    ensures Arrive(s, next, b, aToB).Ok? ==>
              Arrive(s, next, b, aToB).value.remaining == s.remaining && Arrive(s, next, b, aToB).value.out == s.out
  {
    hide OrcaPrice, OrcaTickAt;
  }

  /** The two runs agree on everything an iteration decides by, and stay in step until the smaller one has
      spent its input. */
  lemma StepOnceLockstep(s: State, t: State, b: Boundary, aToB: bool)
    requires Twin(s, t) && Approaching(s, b, aToB) && Approaching(t, b, aToB)
    requires StepOnce(t, b, aToB).Ok?
    ensures var small, large := StepOnce(s, b, aToB), StepOnce(t, b, aToB).value;
            small.Ok? && (InStep(s, t, small.value, large) || Spent(s, t, small.value, large))
  {
    hide OrcaPrice, ComputeSwapStep, Arrive, Advance, Fee.BoundedTarget, Fee.GroupEdge, R.WithinSpot;
    var target := OrcaPrice(b.tickIndex);
    TargetIsTick(b.tickIndex, aToB);
    BoundBetween(s, b, aToB);
    var fee := s.fee.Charged();
    var bounded := fee.BoundedTarget(target, s.liquidity).0;
    var rate := fee.Rate();
    StepSound(s, bounded, rate, aToB);
    StepSound(t, bounded, rate, aToB);
    SwapLockstep(s, t, bounded, rate, aToB);
    var x := ComputeSwapStep(s.remaining, rate, s.liquidity, s.sqrtPrice, bounded, aToB).value;
    var y := ComputeSwapStep(t.remaining, rate, t.liquidity, t.sqrtPrice, bounded, aToB).value;
    var f := s.(fee := fee);
    ArriveIgnoresAmounts(f, s.remaining - x.amountIn - x.feeAmount, s.out + x.amountOut, x.nextPrice, b, aToB);
    ArriveIgnoresAmounts(f, t.remaining - y.amountIn - y.feeAmount, t.out + y.amountOut, y.nextPrice, b, aToB);
  }

  lemma {:induction false} WalkLockstep(s: State, t: State, b: Boundary, aToB: bool)
    requires Twin(s, t) && Approaching(s, b, aToB) && Approaching(t, b, aToB)
    requires StepToBoundary(t, b, aToB).Ok?
    ensures var small, large := StepToBoundary(s, b, aToB), StepToBoundary(t, b, aToB).value;
            small.Ok? && (InStep(s, t, small.value, large) || Spent(s, t, small.value, large))
    decreases GroupsLeft(s.fee)
  {
    hide StepOnce, OrcaPrice, R.WithinSpot, GroupsLeft, FeePositioned;
    StepOnceLockstep(s, t, b, aToB);
    StepOnceSound(s, b, aToB);
    StepOnceSound(t, b, aToB);
    var small, large := StepOnce(s, b, aToB).value, StepOnce(t, b, aToB).value;
    if !Done(large, b, aToB) {
      StepToBoundarySound(large, b, aToB);
      if !Done(small, b, aToB) {
        WalkLockstep(small, large, b, aToB);
      }
    }
  }

  /** Whole-run monotonicity, under a static or an adaptive fee: if the larger input can be quoted so can the
      smaller, which buys no more and consumes no more. */
  lemma {:induction false} RunMonotone(s: State, t: State, aToB: bool, ticks: TickProvider)
    requires Twin(s, t) && Positioned(s, aToB) && Positioned(t, aToB) && Honours(ticks, aToB)
    requires Run(t, aToB, ticks).Ok?
    ensures Run(s, aToB, ticks).Ok?
    ensures var small, large := Run(s, aToB, ticks).value, Run(t, aToB, ticks).value;
            small.out <= large.out && s.remaining - small.remaining <= t.remaining - large.remaining
    decreases t.remaining > 0, TicksLeft(t, aToB)
  {
    hide StepToBoundary, OrcaPrice, R.WithinSpot, FeePositioned;
    RunSound(t, aToB, ticks);
    if s.remaining > 0 && s.sqrtPrice != Limit(aToB) && ticks(s.tick, aToB).Some? {
      var b := ticks(s.tick, aToB).value;
      AtBoundary(s, b, aToB);
      AtBoundary(t, b, aToB);
      WalkLockstep(s, t, b, aToB);
      StepToBoundarySound(s, b, aToB);
      StepToBoundarySound(t, b, aToB);
      var small, large := StepToBoundary(s, b, aToB).value, StepToBoundary(t, b, aToB).value;
      RunSound(large, aToB, ticks);
      if Twin(small, large) {
        RunMonotone(small, large, aToB, ticks);
      }
    }
  }

  // ---- how a run can fail ----

  /** What an iteration can fail on: an output past a u64 by the time the boundary is reached, or a net that
      takes the liquidity below zero. Never on the input. */
  predicate Fault(s: State, b: Boundary, aToB: bool, e: Error)
    requires s.sqrtPrice > 0 && OrcaPrice(b.tickIndex) > 0
  {
    || (e == AmountOverflow && s.out + R.OutputDelta(s.sqrtPrice, OrcaPrice(b.tickIndex), s.liquidity, aToB) > U64MAX)
    || (e == NegativeLiquidity && LiquidityPast(s.liquidity, b, aToB) < 0)
  }

  lemma SwapFault(s: State, bounded: nat, feeRate: nat, aToB: bool)
    requires s.sqrtPrice > 0 && bounded > 0 && feeRate < FEE_RATE_MUL && s.remaining <= U64MAX
    requires R.Ahead(s.sqrtPrice, bounded, aToB)
    ensures match ComputeSwapStep(s.remaining, feeRate, s.liquidity, s.sqrtPrice, bounded, aToB)
            case Ok(step) => step.amountOut <= R.OutputDelta(s.sqrtPrice, bounded, s.liquidity, aToB)
            case Err(e) => e == AmountOverflow && R.OutputDelta(s.sqrtPrice, bounded, s.liquidity, aToB) > U64MAX
  {
    hide ComputeSwapStep, R.ComputeSwapStep, R.InputDelta, R.OutputDelta;
    StepsAgree(s.remaining, feeRate, s.liquidity, s.sqrtPrice, bounded, aToB);
    R.StepSound(s.sqrtPrice, bounded, s.liquidity, s.remaining, feeRate, aToB, true);
    var next := R.ComputeSwapStep(s.sqrtPrice, bounded, s.liquidity, s.remaining, feeRate, aToB, true).next;
    R.OutputMono(s.sqrtPrice, next, bounded, s.liquidity, aToB);
  }

  lemma ArriveFault(s: State, next: nat, b: Boundary, aToB: bool)
    requires MIN_SQRT_PRICE <= next
    ensures var arrived := Arrive(s, next, b, aToB);
            arrived.Err? ==> arrived.error == NegativeLiquidity && LiquidityPast(s.liquidity, b, aToB) < 0
  {
    hide OrcaPrice, OrcaTickAt;
  }

  lemma StepFault(s: State, b: Boundary, aToB: bool)
    requires Approaching(s, b, aToB)
    ensures OrcaPrice(b.tickIndex) > 0
    ensures var next := StepOnce(s, b, aToB);
            next.Err? ==> Fault(s, b, aToB, next.error)
  {
    hide OrcaPrice, ComputeSwapStep, Arrive, Advance, Fee.BoundedTarget, Fee.GroupEdge, R.WithinSpot, R.OutputDelta;
    var target := OrcaPrice(b.tickIndex);
    TargetIsTick(b.tickIndex, aToB);
    BoundBetween(s, b, aToB);
    var fee := s.fee.Charged();
    var bounded, rate := fee.BoundedTarget(target, s.liquidity).0, fee.Rate();
    StepSound(s, bounded, rate, aToB);
    SwapFault(s, bounded, rate, aToB);
    R.OutputMono(s.sqrtPrice, bounded, target, s.liquidity, aToB);
    var step := ComputeSwapStep(s.remaining, rate, s.liquidity, s.sqrtPrice, bounded, aToB);
    if step.Ok? && Book(s.(fee := fee), step.value).Ok? {
      ArriveFault(Book(s.(fee := fee), step.value).value, step.value.nextPrice, b, aToB);
    }
  }

  /** An iteration the walk from s gets to. */
  ghost predicate WalkReaches(s: State, at: State, b: Boundary, aToB: bool)
    requires Approaching(s, b, aToB)
    decreases GroupsLeft(s.fee)
  {
    hide Approaching, StepOnce, Done, GroupsLeft, OrcaPrice;
    StepOnceSound(s, b, aToB);
    || at == s
    || (var next := StepOnce(s, b, aToB);
        next.Ok? && !Done(next.value, b, aToB) && WalkReaches(next.value, at, b, aToB))
  }

  lemma {:induction false} WalkFault(s: State, b: Boundary, aToB: bool) returns (at: State)
    requires Approaching(s, b, aToB) && StepToBoundary(s, b, aToB).Err?
    ensures Approaching(at, b, aToB) && WalkReaches(s, at, b, aToB) && OrcaPrice(b.tickIndex) > 0
    ensures Fault(at, b, aToB, StepToBoundary(s, b, aToB).error)
    decreases GroupsLeft(s.fee)
  {
    hide StepOnce, OrcaPrice, R.WithinSpot, GroupsLeft, Fault, R.OutputDelta, FeePositioned;
    StepFault(s, b, aToB);
    StepOnceSound(s, b, aToB);
    var next := StepOnce(s, b, aToB);
    if next.Err? {
      at := s;
    } else {
      at := WalkFault(next.value, b, aToB);
    }
  }

  /** An iteration toward some boundary that the run from s gets to. */
  ghost predicate RunReaches(s: State, at: State, b: Boundary, aToB: bool, ticks: TickProvider)
    requires Positioned(s, aToB) && Honours(ticks, aToB)
    decreases s.remaining > 0, TicksLeft(s, aToB)
  {
    hide Positioned, StepToBoundary, OrcaPrice, WalkReaches;
    && s.remaining > 0 && s.sqrtPrice != Limit(aToB) && ticks(s.tick, aToB).Some?
    && var first := ticks(s.tick, aToB).value;
    AtBoundary(s, first, aToB);
    StepToBoundarySound(s, first, aToB);
    || (b == first && WalkReaches(s, at, first, aToB))
    || (var next := StepToBoundary(s, first, aToB);
        next.Ok? && RunReaches(next.value, at, b, aToB, ticks))
  }

  /** A run fails only at an iteration it reaches, on an output past a u64 or a negative liquidity. */
  lemma {:induction false} RunFault(s: State, aToB: bool, ticks: TickProvider) returns (at: State, b: Boundary)
    requires Positioned(s, aToB) && Honours(ticks, aToB) && Run(s, aToB, ticks).Err?
    ensures Approaching(at, b, aToB) && OrcaPrice(b.tickIndex) > 0
    ensures RunReaches(s, at, b, aToB, ticks)
    ensures Fault(at, b, aToB, Run(s, aToB, ticks).error)
    decreases s.remaining > 0, TicksLeft(s, aToB)
  {
    hide Positioned, StepToBoundary, OrcaPrice, WalkReaches, Fault, R.OutputDelta, R.WithinSpot;
    b := ticks(s.tick, aToB).value;
    AtBoundary(s, b, aToB);
    StepToBoundarySound(s, b, aToB);
    var next := StepToBoundary(s, b, aToB);
    if next.Err? {
      at := WalkFault(s, b, aToB);
    } else {
      at, b := RunFault(next.value, aToB, ticks);
    }
  }
}
