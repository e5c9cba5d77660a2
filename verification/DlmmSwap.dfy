/** One exact-in DLMM swap: bins crossed one by one at a fixed price each, under a volatility fee. The
    functions specify the methods at the end; the theorems are about every run. */
module DlmmSwap {
  import opened Reals
  import opened Rounding
  import opened Wrappers
  import opened MachineIntegers
  import opened FixedPow
  import opened DlmmMath

  const MIN_BIN_ID: int := -443636
  const MAX_BIN_ID: int := 443636
  const COLLECT_FEE_MODE_ONLY_Y: nat := 1
  const VARIABLE_FEE_SCALE: nat := 100_000_000_000

  datatype BinReserves = BinReserves(amountX: U64, amountY: U64)

  /** The reserves of a bin, or nothing past the edge of known liquidity. */
  type BinProvider = int -> Option<BinReserves>

  /** A decoded unsigned 32-bit field. */
  type U32 = n: nat | n < TWO32

  datatype Settings = Settings(
    binStep: nat,
    baseFactor: nat,
    baseFeePowerFactor: nat,
    variableFeeControl: nat,
    maxVolatilityAccumulator: U32,
    filterPeriod: nat,
    decayPeriod: nat,
    reductionFactor: nat,
    collectFeeMode: nat
  )

  datatype Pool = Pool(
    settings: Settings,
    activeId: int,
    volatilityAccumulator: nat,
    volatilityReference: nat,
    indexReference: int,
    lastUpdateTimestamp: int
  ) {
    /** Decay of the volatility reference over the time since the last swap. */
    function UpdateReferences(timestamp: int): Pool {
      var elapsed := timestamp - lastUpdateTimestamp;
      if elapsed < settings.filterPeriod then this
      else
        this.(indexReference := activeId,
        volatilityReference := if elapsed < settings.decayPeriod
        then Uint32(volatilityAccumulator * settings.reductionFactor / BASIS_POINT_MAX) else 0)
    }

    /** The accumulator at the current distance from the reference, capped. */
    function UpdateVolatilityAccumulator(): Pool {
      var delta := indexReference - activeId;
      var va: nat := volatilityReference + (if delta < 0 then -delta else delta) * BASIS_POINT_MAX;
      var capped := if va > settings.maxVolatilityAccumulator then settings.maxVolatilityAccumulator else va;
      this.(volatilityAccumulator := Uint32(capped))
    }

    function VariableFeeRate(): nat {
      if settings.variableFeeControl == 0 then 0
      else
        var square := (volatilityAccumulator * settings.binStep) * (volatilityAccumulator * settings.binStep);
        FloorDiv(settings.variableFeeControl * square + (VARIABLE_FEE_SCALE - 1), VARIABLE_FEE_SCALE)
    }

    /** Base plus variable rate, capped. */
    function TotalFeeRate(): (rate: nat)
      ensures rate <= MAX_FEE_RATE
    {
      var base := settings.baseFactor * settings.binStep * 10 * Power10(settings.baseFeePowerFactor);
      var total := base + VariableFeeRate();
      if total > MAX_FEE_RATE then MAX_FEE_RATE else total
    }

    function FeeOnInput(swapForY: bool): bool {
      if settings.collectFeeMode == COLLECT_FEE_MODE_ONLY_Y then !swapForY else true
    }
  }

  function Power10(n: nat): nat {
    if n == 0 then 1 else 10 * Power10(n - 1)
  }

  // ---- one bin ----

  datatype Fill = Fill(consumed: nat, out: nat)

  /** Filling one bin: all of it with change left over, or as far as the input reaches. */
  function SwapAtBin(amountIn: U64, maxOut: U64, price: nat, swapForY: bool,
                     feeOnInput: bool, rate: nat): Result<Fill, Error> {
    var inFee :- if feeOnInput then ComputeFeeFromAmount(amountIn, rate) else Ok(0);
    var excludedIn := Uint64(amountIn - inFee);
    var maxIn :- AmountInFromAmountOut(maxOut, price, swapForY);
    var out :- if excludedIn >= maxIn then Ok(maxOut) else AmountOutFromAmountIn(excludedIn, price, swapForY);
    var leftover := if excludedIn >= maxIn then excludedIn - maxIn else 0;
    var topUp :- if leftover > 0 && feeOnInput then ComputeFee(excludedIn - leftover, rate) else Ok(0);
    var consumed := if leftover > 0 then Uint64(excludedIn - leftover + topUp) else amountIn;
    var outFee :- if feeOnInput then Ok(0) else ComputeFeeFromAmount(out, rate);
    Ok(Fill(consumed, Uint64(out as int - outFee)))
  }

  /** The part of an amount left after the fee taken from it. */
  function Net(amount: U64, rate: nat, taxed: bool): (net: nat)
    requires rate <= MAX_FEE_RATE
    ensures net <= amount
  {
    if taxed then
      FeesAdjoint(amount, 0, rate);
      amount - ComputeFeeFromAmount(amount, rate).value
    else amount
  }

  /** An amount with the fee on top of it. */
  function Gross(net: nat, rate: nat, taxed: bool): Result<nat, Error>
    requires rate <= MAX_FEE_RATE
  {
    if taxed then
      var fee :- ComputeFee(net, rate);
      Ok(net + fee)
    else Ok(net)
  }

  lemma NetAffords(gross: U64, net: nat, rate: nat, taxed: bool)
    requires rate <= MAX_FEE_RATE && net <= Net(gross, rate, taxed)
    ensures Gross(net, rate, taxed).Ok? && net <= Gross(net, rate, taxed).value <= gross
  {
    hide ComputeFee, ComputeFeeFromAmount;
    FeesAdjoint(gross, net, rate);
  }

  lemma NetMonotone(a: U64, b: U64, rate: nat, taxed: bool)
    requires rate <= MAX_FEE_RATE && a <= b
    ensures Net(a, rate, taxed) <= Net(b, rate, taxed)
  {
    hide ComputeFeeFromAmount;
    NetNeverFalls(a, b, rate);
  }

  lemma UntaxedOutput(amount: U64, rate: nat)
    requires rate <= MAX_FEE_RATE
    ensures Net(amount, rate, false) == amount
  {
  }

  /** The gross output of a net input: what it buys, up to the whole reserve. */
  function Sold(net: nat, maxOut: U64, price: nat, swapForY: bool): U64
    requires price > 0
  {
    var proceeds := Proceeds(net, price, swapForY);
    if proceeds > maxOut then maxOut else proceeds
  }

  lemma NetIsUnwrapped(amount: U64, rate: nat, taxed: bool)
    requires rate <= MAX_FEE_RATE
    ensures var fee := if taxed then ComputeFeeFromAmount(amount, rate) else Ok(0);
            fee.Ok? && Uint64(amount - fee.value) == Net(amount, rate, taxed)
  {
    hide ComputeFeeFromAmount;
    FeesAdjoint(amount, 0, rate);
  }

  /** A bin whose cost is within the net input is sold whole, for its cost with the fee on top. */
  lemma WholeBin(amountIn: U64, maxOut: U64, price: nat, swapForY: bool, feeOnInput: bool, rate: nat)
    requires 0 < price <= U128MAX && rate <= MAX_FEE_RATE
    requires Cost(maxOut, price, swapForY) < Net(amountIn, rate, feeOnInput)
    ensures var gross := Gross(Cost(maxOut, price, swapForY), rate, feeOnInput);
            && gross.Ok?
            && SwapAtBin(amountIn, maxOut, price, swapForY, feeOnInput, rate)
               == Ok(Fill(gross.value, Net(maxOut, rate, !feeOnInput)))
  {
    hide ComputeFee, ComputeFeeFromAmount, Cost, Proceeds, AmountInFromAmountOut, AmountOutFromAmountIn, Net, Uint64;
    NetIsUnwrapped(amountIn, rate, feeOnInput);
    NetIsUnwrapped(maxOut, rate, !feeOnInput);
    CheckedAmounts(maxOut, price, swapForY);
    NetAffords(amountIn, Cost(maxOut, price, swapForY), rate, feeOnInput);
    Uint64Exact(Gross(Cost(maxOut, price, swapForY), rate, feeOnInput).value);
  }

  /** Otherwise everything is spent on what the net input buys. */
  lemma PartialBin(amountIn: U64, maxOut: U64, price: nat, swapForY: bool, feeOnInput: bool, rate: nat)
    requires 0 < price <= U128MAX && rate <= MAX_FEE_RATE
    requires Net(amountIn, rate, feeOnInput) <= Cost(maxOut, price, swapForY) <= U64MAX
    ensures SwapAtBin(amountIn, maxOut, price, swapForY, feeOnInput, rate)
         == Ok(Fill(amountIn, Net(Sold(Net(amountIn, rate, feeOnInput), maxOut, price, swapForY), rate, !feeOnInput)))
  {
    hide ComputeFee, ComputeFeeFromAmount, Cost, Proceeds, AmountInFromAmountOut, AmountOutFromAmountIn, Net;
    var net := Net(amountIn, rate, feeOnInput);
    NetIsUnwrapped(amountIn, rate, feeOnInput);
    NetIsUnwrapped(Sold(net, maxOut, price, swapForY), rate, !feeOnInput);
    CheckedAmounts(maxOut, price, swapForY);
    CheckedAmounts(net, price, swapForY);
    BinAdjoint(net, maxOut, price, swapForY);
  }

  lemma UnpriceableBin(amountIn: U64, maxOut: U64, price: nat, swapForY: bool, feeOnInput: bool, rate: nat)
    requires 0 < price <= U128MAX && Cost(maxOut, price, swapForY) > U64MAX
    ensures SwapAtBin(amountIn, maxOut, price, swapForY, feeOnInput, rate).Err?
  {
    hide ComputeFee, ComputeFeeFromAmount, Cost, Proceeds, AmountInFromAmountOut, AmountOutFromAmountIn;
    CheckedAmounts(maxOut, price, swapForY);
  }

  /** What filling a bin guarantees: it never draws more than the input or pays more than the reserve,
      trades within the bin's price, and fails exactly when the whole bin's cost is out of range. */
  lemma BinSound(amountIn: U64, maxOut: U64, price: nat, swapForY: bool, feeOnInput: bool, rate: nat)
    requires 0 < price <= U128MAX && rate <= MAX_FEE_RATE
    ensures var fill := SwapAtBin(amountIn, maxOut, price, swapForY, feeOnInput, rate);
            && (fill.Err? <==> Cost(maxOut, price, swapForY) > U64MAX)
            && (fill.Ok? ==>
                  && fill.value.consumed <= amountIn && fill.value.out <= maxOut
                  && WithinPrice(fill.value.out, fill.value.consumed, price, swapForY))
  {
    hide SwapAtBin, Net, Gross, Cost, Proceeds, WithinPrice;
    var maxIn, net := Cost(maxOut, price, swapForY), Net(amountIn, rate, feeOnInput);
    if maxIn > U64MAX {
      UnpriceableBin(amountIn, maxOut, price, swapForY, feeOnInput, rate);
    } else if maxIn < net {
      WholeBin(amountIn, maxOut, price, swapForY, feeOnInput, rate);
      NetAffords(amountIn, maxIn, rate, feeOnInput);
      PaysWithin(Net(maxOut, rate, !feeOnInput), maxOut, Gross(maxIn, rate, feeOnInput).value, price, swapForY);
    } else {
      PartialBin(amountIn, maxOut, price, swapForY, feeOnInput, rate);
      var sold := Sold(net, maxOut, price, swapForY);
      BinAdjoint(net, sold, price, swapForY);
      PaysWithin(Net(sold, rate, !feeOnInput), sold, amountIn, price, swapForY);
    }
  }

  /** The net amount is the share a fee leaves, and the gross amount the least that leaves the net one. */
  lemma FeeShares(amount: U64, net: nat, rate: nat, taxed: bool)
    requires rate <= MAX_FEE_RATE
    ensures var keep := 1_000_000_000 - (if taxed then rate else 0);
            && IsShare(Net(amount, rate, taxed), amount, keep, 1_000_000_000)
            && (Gross(net, rate, taxed).Ok? ==> IsLeastGross(Gross(net, rate, taxed).value, net, keep, 1_000_000_000))
  {
    hide FloorDiv, CeilDiv;
    if taxed {
      FeeTaken(amount, rate);
      FloorIsShare(amount, 1_000_000_000 - rate, 1_000_000_000);
      FeeOnTop(net, rate);
      GrossUpIsLeast(net, rate, 1_000_000_000);
    }
  }

  /** The exact price of a whole bin, rounded up. */
  predicate IsCost(cost: nat, stock: nat, price: nat, swapForY: bool) {
    WithinPrice(stock, cost, price, swapForY) && (cost == 0 || !WithinPrice(stock, cost - 1, price, swapForY))
  }

  /** As much of a bin as an input buys, rounded down. */
  predicate IsSold(sold: nat, net: nat, stock: nat, price: nat, swapForY: bool) {
    && sold <= stock && WithinPrice(sold, net, price, swapForY)
    && (sold == stock || !WithinPrice(sold + 1, net, price, swapForY))
  }

  /** A bin sold for less than the net input goes whole, for the least input that covers its price after the fee;
      otherwise all of the input buys as much as its net covers. A fee on the output comes off what is paid. */
  ghost predicate IsBinTrade(fill: Fill, amountIn: nat, stock: nat, price: nat,
                             swapForY: bool, feeIn: nat, feeOut: nat) {
    exists net: nat, cost: nat, sold: nat ::
      && IsShare(net, amountIn, 1_000_000_000 - feeIn, 1_000_000_000) && IsCost(cost, stock, price, swapForY)
      && IsSold(sold, net, stock, price, swapForY)
      && IsShare(fill.out, sold, 1_000_000_000 - feeOut, 1_000_000_000)
      && if cost < net then IsLeastGross(fill.consumed, cost, 1_000_000_000 - feeIn, 1_000_000_000)
         else fill.consumed == amountIn
  }

  lemma SoldIs(net: nat, stock: U64, price: nat, swapForY: bool)
    requires price > 0
    ensures IsCost(Cost(stock, price, swapForY), stock, price, swapForY)
    ensures IsSold(Sold(net, stock, price, swapForY), net, stock, price, swapForY)
    ensures Cost(stock, price, swapForY) <= net ==> Sold(net, stock, price, swapForY) == stock
  {
    hide Cost, Proceeds, WithinPrice;
    var cost, sold: nat := Cost(stock, price, swapForY), Sold(net, stock, price, swapForY);
    var more := sold + 1;
    CostIsWithinPrice(stock, cost, price, swapForY);
    if cost > 0 {
      CostIsWithinPrice(stock, cost - 1, price, swapForY);
    }
    BinAdjoint(net, stock, price, swapForY);
    BinAdjoint(net, sold, price, swapForY);
    BinAdjoint(net, more, price, swapForY);
    CostIsWithinPrice(sold, net, price, swapForY);
    CostIsWithinPrice(more, net, price, swapForY);
  }

  /** What a bin trades, exactly, in both directions and with the fee on either side. */
  lemma BinTrades(amountIn: U64, stock: U64, price: nat, swapForY: bool, feeOnInput: bool, rate: nat)
    requires 0 < price <= U128MAX && rate <= MAX_FEE_RATE
    ensures var fill := SwapAtBin(amountIn, stock, price, swapForY, feeOnInput, rate);
            fill.Ok? ==> IsBinTrade(fill.value, amountIn, stock, price, swapForY,
                                    if feeOnInput then rate else 0, if feeOnInput then 0 else rate)
  {
    hide SwapAtBin, Net, Gross, Cost, Proceeds, Sold, IsShare, IsLeastGross, IsCost, IsSold;
    var net, cost := Net(amountIn, rate, feeOnInput), Cost(stock, price, swapForY);
    BinSound(amountIn, stock, price, swapForY, feeOnInput, rate);
    if cost <= U64MAX {
      var sold := Sold(net, stock, price, swapForY);
      SoldIs(net, stock, price, swapForY);
      FeeShares(amountIn, cost, rate, feeOnInput);
      FeeShares(sold, 0, rate, !feeOnInput);
      if cost < net {
        WholeBin(amountIn, stock, price, swapForY, feeOnInput, rate);
      } else {
        PartialBin(amountIn, stock, price, swapForY, feeOnInput, rate);
      }
    }
  }

  lemma PaysWithin(paid: nat, sold: nat, spent: nat, price: nat, swapForY: bool)
    requires price > 0 && paid <= sold && Cost(sold, price, swapForY) <= spent
    ensures WithinPrice(paid, spent, price, swapForY)
  {
    hide Cost;
    CostIsWithinPrice(sold, spent, price, swapForY);
    MulMono(paid, sold, Q64);
    MulMono(paid, sold, price);
  }

  /** Two inputs at the same bin do the same, unless the smaller one ends there: then it is paid no more.
      The smaller one fails only where the larger does. */
  lemma BinLockstep(a: U64, b: U64, maxOut: U64, price: nat, swapForY: bool, feeOnInput: bool, rate: nat)
    requires 0 < price <= U128MAX && rate <= MAX_FEE_RATE && a <= b
    ensures var small := SwapAtBin(a, maxOut, price, swapForY, feeOnInput, rate);
            var large := SwapAtBin(b, maxOut, price, swapForY, feeOnInput, rate);
            && (small.Err? <==> large.Err?)
            && (small.Ok? ==> small == large || (small.value.consumed == a && small.value.out <= large.value.out))
  {
    hide SwapAtBin, Net, Gross, Cost, Proceeds;
    var maxIn := Cost(maxOut, price, swapForY);
    if maxIn > U64MAX {
      UnpriceableBin(a, maxOut, price, swapForY, feeOnInput, rate);
      UnpriceableBin(b, maxOut, price, swapForY, feeOnInput, rate);
    } else {
      var x, y := Net(a, rate, feeOnInput), Net(b, rate, feeOnInput);
      NetMonotone(a, b, rate, feeOnInput);
      if maxIn < x {
        WholeBin(a, maxOut, price, swapForY, feeOnInput, rate);
        WholeBin(b, maxOut, price, swapForY, feeOnInput, rate);
      } else {
        PartialBin(a, maxOut, price, swapForY, feeOnInput, rate);
        SoldMonotone(x, y, maxOut, price, swapForY);
        if maxIn < y {
          WholeBin(b, maxOut, price, swapForY, feeOnInput, rate);
          NetMonotone(Sold(x, maxOut, price, swapForY), maxOut, rate, !feeOnInput);
        } else {
          PartialBin(b, maxOut, price, swapForY, feeOnInput, rate);
          NetMonotone(Sold(x, maxOut, price, swapForY), Sold(y, maxOut, price, swapForY), rate, !feeOnInput);
        }
      }
    }
  }

  lemma SoldMonotone(x: nat, y: nat, maxOut: U64, price: nat, swapForY: bool)
    requires price > 0 && x <= y
    ensures Sold(x, maxOut, price, swapForY) <= Sold(y, maxOut, price, swapForY)
  {
    hide Cost;
    BinAdjoint(x, Proceeds(x, price, swapForY), price, swapForY);
    BinAdjoint(y, Proceeds(x, price, swapForY), price, swapForY);
  }

  /** Under a fee of at most half, two more units in always leave at least one more after the fee. */
  lemma TwoMoreLeaveOneMore(a: U64, b: U64, rate: nat)
    requires rate <= MAX_FEE_RATE && a + 2 <= b
    ensures Net(a, rate, true) < Net(b, rate, true)
  {
    hide ComputeFeeFromAmount;
    FeeTaken(a, rate);
    FeeTaken(b, rate);
    var keep, net := FEE_PRECISION - rate, Net(a, rate, true);
    FloorAdjoint(net, a * keep, FEE_PRECISION);
    FloorAdjoint(net + 1, b * keep, FEE_PRECISION);
    MulMono(a + 2, b, keep);
    Distribute(keep, a, 2);
    Distribute(FEE_PRECISION, net, 1);
  }

  lemma NetGrows(x: nat, rate: nat, taxed: bool)
    requires x + 1 <= U64MAX && rate <= MAX_FEE_RATE
    ensures Net(x + 1, rate, taxed) <= Net(x, rate, taxed) + 1
    ensures x >= 2 ==> Net(x - 2, rate, taxed) + 1 <= Net(x, rate, taxed)
    ensures !taxed || rate == 0 ==> Net(x, rate, taxed) == x
  {
    hide ComputeFeeFromAmount, FloorDiv;
    FeeTaken(x, rate);
    FeeTaken(x + 1, rate);
    NetStep(x, rate);
    if x >= 2 {
      TwoMoreLeaveOneMore(x - 2, x, rate);
    }
    if rate == 0 {
      FloorUnique(x, x * FEE_PRECISION, FEE_PRECISION);
    }
  }

  /** The least gross amount for a net one is at most one short of any other. */
  lemma GrossIsNear(x: nat, net: nat, rate: nat, taxed: bool)
    requires x + 1 <= U64MAX && rate <= MAX_FEE_RATE && net == Net(x, rate, taxed)
    ensures var gross := Gross(net, rate, taxed);
            gross.Ok? && x <= gross.value + (if taxed && rate > 0 then 1 else 0)
  {
    hide ComputeFee, ComputeFeeFromAmount;
    NetAffords(x, net, rate, taxed);
    NetGrows(x, rate, taxed);
    if taxed && x >= 2 {
      FeesAdjoint(x - 2, net, rate);
    }
  }

  /** What one more unit does at a bin: the same, or it is spent there, or it lets the bin go whole for the same
      output and is left over, with at most one unit that the fee had swallowed. */
  lemma BinJump(x: nat, maxOut: U64, price: nat, swapForY: bool, feeOnInput: bool, rate: nat)
    requires 0 < price <= U128MAX && rate <= MAX_FEE_RATE && x + 1 <= U64MAX
    ensures var small := SwapAtBin(x, maxOut, price, swapForY, feeOnInput, rate);
            var large := SwapAtBin(x + 1, maxOut, price, swapForY, feeOnInput, rate);
            && (small.Err? <==> large.Err?)
            && (small.Ok? ==>
                  || small == large
                  || (small.value.consumed == x && large.value.consumed == x + 1)
                  || (&& small.value == Fill(x, large.value.out)
                      && large.value.consumed <= x + 1
                      && x <= large.value.consumed + (if feeOnInput && rate > 0 then 1 else 0)))
  {
    hide SwapAtBin, Net, Gross, Cost, Proceeds;
    BinLockstep(x, x + 1, maxOut, price, swapForY, feeOnInput, rate);
    BinSound(x + 1, maxOut, price, swapForY, feeOnInput, rate);
    var maxIn, net := Cost(maxOut, price, swapForY), Net(x, rate, feeOnInput);
    NetGrows(x, rate, feeOnInput);
    if maxIn < net {
      WholeBin(x, maxOut, price, swapForY, feeOnInput, rate);
      NetMonotone(x, x + 1, rate, feeOnInput);
      WholeBin(x + 1, maxOut, price, swapForY, feeOnInput, rate);
    } else if maxIn < Net(x + 1, rate, feeOnInput) {
      PartialBin(x, maxOut, price, swapForY, feeOnInput, rate);
      WholeBin(x + 1, maxOut, price, swapForY, feeOnInput, rate);
      BinAdjoint(net, maxOut, price, swapForY);
      GrossIsNear(x, net, rate, feeOnInput);
    } else if maxIn <= U64MAX {
      PartialBin(x, maxOut, price, swapForY, feeOnInput, rate);
      PartialBin(x + 1, maxOut, price, swapForY, feeOnInput, rate);
    }
  }

  // ---- the run ----

  datatype End = End(left: U64, out: nat)

  function MaxOut(reserves: BinReserves, swapForY: bool): U64 {
    if swapForY then reserves.amountY else reserves.amountX
  }

  /** What happens at one available bin: nothing when it is empty, otherwise one fill at its price. */
  function Visit(pool: Pool, left: U64, swapForY: bool, feeOnInput: bool, reserves: BinReserves)
    : Result<(Pool, Fill), Error>
  {
    var maxOut := MaxOut(reserves, swapForY);
    if maxOut == 0 then Ok((pool, Fill(0, 0)))
    else
      var charged := pool.UpdateVolatilityAccumulator();
      var price :- PriceFromID(pool.activeId, pool.settings.binStep);
      var fill :- SwapAtBin(left, maxOut, price, swapForY, feeOnInput, charged.TotalFeeRate());
      Ok((charged, fill))
  }

  lemma VisitSound(pool: Pool, left: U64, swapForY: bool, feeOnInput: bool, reserves: BinReserves)
    ensures var visit := Visit(pool, left, swapForY, feeOnInput, reserves);
            visit.Ok? ==>
              var (p, fill) := visit.value;
              && p == pool.(volatilityAccumulator := p.volatilityAccumulator)
              && fill.consumed <= left && fill.out <= MaxOut(reserves, swapForY)
              && (fill == Fill(0, 0) || (
                    && PriceFromID(pool.activeId, pool.settings.binStep).Ok?
                    && WithinPrice(fill.out, fill.consumed,
                                   PriceFromID(pool.activeId, pool.settings.binStep).value, swapForY)))
  {
    hide SwapAtBin, PriceFromID, WithinPrice, Pool.TotalFeeRate;
    PriceIsPositive(pool.activeId, pool.settings.binStep);
    var price := PriceFromID(pool.activeId, pool.settings.binStep);
    if MaxOut(reserves, swapForY) > 0 && price.Ok? {
      BinSound(left, MaxOut(reserves, swapForY), price.value, swapForY, feeOnInput,
               pool.UpdateVolatilityAccumulator().TotalFeeRate());
    }
  }

  function NextBin(id: int, swapForY: bool): int {
    if swapForY then id - 1 else id + 1
  }

  predicate InBinRange(id: int) {
    MIN_BIN_ID <= id <= MAX_BIN_ID
  }

  /** Bins left before the edge of the id range. */
  function BinsLeft(id: int, swapForY: bool): nat {
    if swapForY then (if id > MIN_BIN_ID then id - MIN_BIN_ID else 0)
    else (if id < MAX_BIN_ID then MAX_BIN_ID - id else 0)
  }

  /** The loop. `out` is the true total; the quote reports it modulo 2^64. */
  function Run(pool: Pool, left: U64, out: nat, swapForY: bool, feeOnInput: bool, bins: BinProvider): Result<End, Error>
    decreases BinsLeft(pool.activeId, swapForY)
  {
    hide Visit;
    if left == 0 then Ok(End(left, out))
    else
      match bins(pool.activeId)
      case None => Ok(End(left, out))
      case Some(reserves) =>
        VisitSound(pool, left, swapForY, feeOnInput, reserves);
        var (visited, fill) :- Visit(pool, left, swapForY, feeOnInput, reserves);
        var rest, next := left - fill.consumed, NextBin(pool.activeId, swapForY);
        if rest == 0 || !InBinRange(next) then Ok(End(rest, out + fill.out))
        else Run(visited.(activeId := next), rest, out + fill.out, swapForY, feeOnInput, bins)
  }

  /** The output reserves from a bin on, up to the first gap. */
  function ReservesAhead(id: int, swapForY: bool, bins: BinProvider): nat
    decreases BinsLeft(id, swapForY)
  {
    match bins(id)
    case None => 0
    case Some(reserves) =>
      var next := NextBin(id, swapForY);
      MaxOut(reserves, swapForY) + if InBinRange(next) then ReservesAhead(next, swapForY, bins) else 0
  }

  /** Every run ends, having consumed no more than its input and paid no more than the reserves ahead,
      and its total never beats the price of any bin it started at or had passed. */
  lemma {:induction false} RunSound(pool: Pool, left: U64, out: nat, swapForY: bool,
                                    feeOnInput: bool, bins: BinProvider, start: int)
    requires if swapForY then pool.activeId <= start else start <= pool.activeId
    requires PriceFromID(start, pool.settings.binStep).Ok?
    ensures var end := Run(pool, left, out, swapForY, feeOnInput, bins);
            end.Ok? ==>
              && end.value.left <= left
              && out <= end.value.out <= out + ReservesAhead(pool.activeId, swapForY, bins)
              && WithinPrice(end.value.out - out, left - end.value.left,
                             PriceFromID(start, pool.settings.binStep).value, swapForY)
    decreases BinsLeft(pool.activeId, swapForY)
  {
    hide Visit, PriceFromID, WithinPrice, ReservesAhead;
    RunOnlyPays(pool, left, out, swapForY, feeOnInput, bins);
    var startPrice := PriceFromID(start, pool.settings.binStep).value;
    NothingIsWithinPrice(startPrice, swapForY);
    if left > 0 && bins(pool.activeId).Some? {
      var reserves := bins(pool.activeId).value;
      VisitSound(pool, left, swapForY, feeOnInput, reserves);
      var visit := Visit(pool, left, swapForY, feeOnInput, reserves);
      if visit.Ok? {
        var (visited, fill) := visit.value;
        FillWithinStart(pool, fill, start, swapForY);
        var rest, next := left - fill.consumed, NextBin(pool.activeId, swapForY);
        if rest > 0 && InBinRange(next) {
          RunSound(visited.(activeId := next), rest, out + fill.out, swapForY, feeOnInput, bins, start);
          var end := Run(visited.(activeId := next), rest, out + fill.out, swapForY, feeOnInput, bins);
          if end.Ok? {
            WithinPriceAdds(fill.out, fill.consumed, end.value.out - out - fill.out,
                            rest - end.value.left, startPrice, swapForY);
          }
        }
      }
    }
  }

  lemma NothingIsWithinPrice(price: nat, swapForY: bool)
    ensures WithinPrice(0, 0, price, swapForY)
  {
  }

  /** A fill at a bin further along is within the price of the bin the run started at. */
  lemma FillWithinStart(pool: Pool, fill: Fill, start: int, swapForY: bool)
    requires if swapForY then pool.activeId <= start else start <= pool.activeId
    requires PriceFromID(start, pool.settings.binStep).Ok?
    requires fill == Fill(0, 0) || (
               && PriceFromID(pool.activeId, pool.settings.binStep).Ok?
               && WithinPrice(fill.out, fill.consumed, PriceFromID(pool.activeId, pool.settings.binStep).value,
                              swapForY))
    ensures WithinPrice(fill.out, fill.consumed, PriceFromID(start, pool.settings.binStep).value, swapForY)
  {
    hide PriceFromID, WithinPrice;
    var startPrice := PriceFromID(start, pool.settings.binStep).value;
    if fill == Fill(0, 0) {
      NothingIsWithinPrice(startPrice, swapForY);
    } else {
      if swapForY {
        PriceNeverFalls(pool.activeId, start, pool.settings.binStep);
      } else {
        PriceNeverFalls(start, pool.activeId, pool.settings.binStep);
      }
      var price := PriceFromID(pool.activeId, pool.settings.binStep).value;
      WithinPriceWorsens(fill.out, fill.consumed, price, startPrice, swapForY);
    }
  }

  /** The rate charged at the active bin: nothing is charged where there is nothing to sell. */
  function ChargedAt(pool: Pool, reserves: BinReserves, swapForY: bool): Pool {
    if MaxOut(reserves, swapForY) == 0 then pool else pool.UpdateVolatilityAccumulator()
  }

  /** What a trader gets for the output reserves from a bin on, up to the first gap, each after the fee charged at
      its own bin. */
  function PayoutAhead(pool: Pool, swapForY: bool, feeOnInput: bool, bins: BinProvider): nat
    decreases BinsLeft(pool.activeId, swapForY)
  {
    match bins(pool.activeId)
    case None => 0
    case Some(reserves) =>
      var charged, next := ChargedAt(pool, reserves, swapForY), NextBin(pool.activeId, swapForY);
      Net(MaxOut(reserves, swapForY), charged.TotalFeeRate(), !feeOnInput)
      + if InBinRange(next) then PayoutAhead(charged.(activeId := next), swapForY, feeOnInput, bins) else 0
  }

  /** That is the reserves themselves with the fee on the input, and never more than them. */
  lemma {:induction false} PayoutWithinReserves(pool: Pool, swapForY: bool, feeOnInput: bool, bins: BinProvider)
    ensures PayoutAhead(pool, swapForY, feeOnInput, bins) <= ReservesAhead(pool.activeId, swapForY, bins)
    ensures feeOnInput ==> PayoutAhead(pool, swapForY, feeOnInput, bins) == ReservesAhead(pool.activeId, swapForY, bins)
    decreases BinsLeft(pool.activeId, swapForY)
  {
    hide Pool.TotalFeeRate, Pool.UpdateVolatilityAccumulator;
    var next := NextBin(pool.activeId, swapForY);
    if bins(pool.activeId).Some? && InBinRange(next) {
      var charged := ChargedAt(pool, bins(pool.activeId).value, swapForY);
      PayoutWithinReserves(charged.(activeId := next), swapForY, feeOnInput, bins);
    }
  }

  /** A visit pays no more than the whole reserve after its fee, and exactly that when change is left over. */
  lemma VisitWithChange(pool: Pool, left: U64, swapForY: bool, feeOnInput: bool, reserves: BinReserves)
    ensures var visit := Visit(pool, left, swapForY, feeOnInput, reserves);
            visit.Ok? ==>
              var (charged, fill) := visit.value;
              var whole := Net(MaxOut(reserves, swapForY), charged.TotalFeeRate(), !feeOnInput);
              charged == ChargedAt(pool, reserves, swapForY) && fill.out <= whole
              && (fill.consumed < left ==> fill.out == whole)
  {
    hide SwapAtBin, PriceFromID, Pool.TotalFeeRate, Pool.UpdateVolatilityAccumulator, Net, Gross, Cost, Proceeds;
    PriceIsPositive(pool.activeId, pool.settings.binStep);
    var maxOut, price := MaxOut(reserves, swapForY), PriceFromID(pool.activeId, pool.settings.binStep);
    var rate := ChargedAt(pool, reserves, swapForY).TotalFeeRate();
    if maxOut > 0 && price.Ok? {
      BinSound(left, maxOut, price.value, swapForY, feeOnInput, rate);
      if Cost(maxOut, price.value, swapForY) < Net(left, rate, feeOnInput) {
        WholeBin(left, maxOut, price.value, swapForY, feeOnInput, rate);
      } else if Cost(maxOut, price.value, swapForY) <= U64MAX {
        PartialBin(left, maxOut, price.value, swapForY, feeOnInput, rate);
        NetMonotone(Sold(Net(left, rate, feeOnInput), maxOut, price.value, swapForY), maxOut, rate, !feeOnInput);
      }
    }
  }

  /** No bin is passed over, on either fee side: a run pays at most what the output reserves from its start to the
      first gap or the edge of the id range are worth to the trader, and exactly that when it ends with input left. */
  lemma {:induction false} LeftoverMeansEmptied(pool: Pool, left: U64, out: nat,
                                                swapForY: bool, feeOnInput: bool, bins: BinProvider)
    ensures var end, ahead := Run(pool, left, out, swapForY, feeOnInput, bins),
                              PayoutAhead(pool, swapForY, feeOnInput, bins);
            end.Ok? ==> end.value.out <= out + ahead && (end.value.left > 0 ==> end.value.out == out + ahead)
    decreases BinsLeft(pool.activeId, swapForY)
  {
    hide Visit, Net, Pool.TotalFeeRate, ChargedAt;
    if left > 0 && bins(pool.activeId).Some? {
      var reserves := bins(pool.activeId).value;
      VisitSound(pool, left, swapForY, feeOnInput, reserves);
      VisitWithChange(pool, left, swapForY, feeOnInput, reserves);
      var visit := Visit(pool, left, swapForY, feeOnInput, reserves);
      if visit.Ok? {
        var (visited, fill) := visit.value;
        var rest, next := left - fill.consumed, NextBin(pool.activeId, swapForY);
        if rest > 0 && InBinRange(next) {
          LeftoverMeansEmptied(visited.(activeId := next), rest, out + fill.out, swapForY, feeOnInput, bins);
        }
      }
    }
  }

  /** The first bin from `id` on that has something to sell, before any gap. */
  function FirstStocked(id: int, swapForY: bool, bins: BinProvider): Option<int>
    decreases BinsLeft(id, swapForY)
  {
    match bins(id)
    case None => None
    case Some(reserves) =>
      var next := NextBin(id, swapForY);
      if MaxOut(reserves, swapForY) > 0 then Some(id)
      else if InBinRange(next) then FirstStocked(next, swapForY, bins) else None
  }

  /** A run goes straight to the first bin with something to sell, which has a price if the run succeeds, and does
      nothing at all when there is none. */
  lemma {:induction false} RunFindsFirst(pool: Pool, left: U64, out: nat, swapForY: bool,
                                         feeOnInput: bool, bins: BinProvider)
    requires left > 0
    ensures var end := Run(pool, left, out, swapForY, feeOnInput, bins);
            match FirstStocked(pool.activeId, swapForY, bins)
            case None => end == Ok(End(left, out))
            case Some(first) =>
              && (if swapForY then first <= pool.activeId else pool.activeId <= first)
              && end == Run(pool.(activeId := first), left, out, swapForY, feeOnInput, bins)
              && (end.Ok? ==> PriceFromID(first, pool.settings.binStep).Ok?)
    decreases BinsLeft(pool.activeId, swapForY)
  {
    hide SwapAtBin, PriceFromID, Pool.TotalFeeRate, Pool.UpdateVolatilityAccumulator;
    if bins(pool.activeId).Some? {
      var next := NextBin(pool.activeId, swapForY);
      if MaxOut(bins(pool.activeId).value, swapForY) > 0 {
        assert pool.(activeId := pool.activeId) == pool;
      } else if InBinRange(next) {
        RunFindsFirst(pool.(activeId := next), left, out, swapForY, feeOnInput, bins);
      }
    }
  }

  lemma VisitLockstep(pool: Pool, a: U64, b: U64, swapForY: bool, feeOnInput: bool, reserves: BinReserves)
    requires a <= b
    ensures var small := Visit(pool, a, swapForY, feeOnInput, reserves);
            var large := Visit(pool, b, swapForY, feeOnInput, reserves);
            && (small.Err? <==> large.Err?)
            && (small.Ok? ==>
                  && small.value.0 == large.value.0
                  && (small.value.1 == large.value.1
                      || (small.value.1.consumed == a && small.value.1.out <= large.value.1.out)))
  {
    hide SwapAtBin, PriceFromID, Pool.TotalFeeRate;
    PriceIsPositive(pool.activeId, pool.settings.binStep);
    var price := PriceFromID(pool.activeId, pool.settings.binStep);
    if MaxOut(reserves, swapForY) > 0 && price.Ok? {
      BinLockstep(a, b, MaxOut(reserves, swapForY), price.value, swapForY, feeOnInput,
                  pool.UpdateVolatilityAccumulator().TotalFeeRate());
    }
  }

  lemma {:induction false} RunOnlyPays(pool: Pool, left: U64, out: nat, swapForY: bool,
                                       feeOnInput: bool, bins: BinProvider)
    ensures var end := Run(pool, left, out, swapForY, feeOnInput, bins);
            end.Ok? ==> out <= end.value.out <= out + ReservesAhead(pool.activeId, swapForY, bins)
                        && end.value.left <= left
    decreases BinsLeft(pool.activeId, swapForY)
  {
    hide Visit;
    if left > 0 && bins(pool.activeId).Some? {
      var reserves := bins(pool.activeId).value;
      VisitSound(pool, left, swapForY, feeOnInput, reserves);
      var visit := Visit(pool, left, swapForY, feeOnInput, reserves);
      if visit.Ok? {
        var (visited, fill) := visit.value;
        var rest, next := left - fill.consumed, NextBin(pool.activeId, swapForY);
        if rest > 0 && InBinRange(next) {
          RunOnlyPays(visited.(activeId := next), rest, out + fill.out, swapForY, feeOnInput, bins);
        }
      }
    }
  }

  /** Whole-run monotonicity: the runs stay in step until the smaller input is spent. */
  lemma {:induction false} RunMonotone(pool: Pool, a: U64, b: U64, outA: nat, outB: nat,
                                       swapForY: bool, feeOnInput: bool, bins: BinProvider)
    requires a <= b && outA <= outB
    ensures var small := Run(pool, a, outA, swapForY, feeOnInput, bins);
            var large := Run(pool, b, outB, swapForY, feeOnInput, bins);
            large.Ok? ==> small.Ok? && small.value.out <= large.value.out
    decreases BinsLeft(pool.activeId, swapForY)
  {
    hide Visit, ReservesAhead, PriceFromID, WithinPrice;
    RunOnlyPays(pool, b, outB, swapForY, feeOnInput, bins);
    if a > 0 && bins(pool.activeId).Some? {
      var reserves := bins(pool.activeId).value;
      VisitSound(pool, a, swapForY, feeOnInput, reserves);
      VisitSound(pool, b, swapForY, feeOnInput, reserves);
      VisitLockstep(pool, a, b, swapForY, feeOnInput, reserves);
      var small := Visit(pool, a, swapForY, feeOnInput, reserves);
      var large := Visit(pool, b, swapForY, feeOnInput, reserves);
      if large.Ok? {
        var (visited, fillA) := small.value;
        var fillB := large.value.1;
        var next := NextBin(pool.activeId, swapForY);
        if InBinRange(next) {
          var moved := visited.(activeId := next);
          if fillA == fillB {
            RunMonotone(moved, a - fillA.consumed, b - fillB.consumed, outA + fillA.out,
                        outB + fillB.out, swapForY, feeOnInput, bins);
          } else {
            RunOnlyPays(moved, b - fillB.consumed, outB + fillB.out, swapForY, feeOnInput, bins);
          }
        }
      }
    }
  }

  // ---- how far one more unit of input can carry a run ----

  /** A base fee is charged at every bin. */
  predicate Charging(s: Settings) {
    s.baseFactor > 0 && s.binStep > 0
  }

  /** A variable fee is charged wherever the accumulator is not zero. */
  predicate Surcharging(s: Settings) {
    s.variableFeeControl > 0 && s.binStep > 0 && s.maxVolatilityAccumulator > 0
  }

  lemma BaseFeeCharges(pool: Pool)
    requires Charging(pool.settings)
    ensures pool.TotalFeeRate() > 0
  {
    hide Pool.VariableFeeRate;
    var s := pool.settings;
    PowerOfTenIsPositive(s.baseFeePowerFactor);
    Positive(s.baseFactor, s.binStep);
    Positive(s.baseFactor * s.binStep * 10, Power10(s.baseFeePowerFactor));
  }

  lemma PowerOfTenIsPositive(n: nat)
    ensures Power10(n) > 0
  {
  }

  /** Without a base fee the rate is positive exactly with a variable fee and an accumulator to charge it on. */
  lemma SurchargeCharges(pool: Pool)
    requires !Charging(pool.settings) && pool.volatilityAccumulator <= pool.settings.maxVolatilityAccumulator
    ensures pool.TotalFeeRate() > 0 <==> Surcharging(pool.settings) && pool.volatilityAccumulator > 0
  {
    hide Pool.VariableFeeRate, Power10;
    var s, crossed := pool.settings, pool.volatilityAccumulator * pool.settings.binStep;
    VariableRateIsLeastCover(pool, 0);
    if Surcharging(s) && pool.volatilityAccumulator > 0 {
      Positive(pool.volatilityAccumulator, s.binStep);
      Positive(crossed, crossed);
      Positive(s.variableFeeControl, crossed * crossed);
    } else {
      assert s.variableFeeControl == 0 || crossed * crossed == 0;
    }
  }

  /** The accumulator is the reference plus a fixed amount a bin, capped. */
  lemma AccumulatorIsDistance(pool: Pool)
    ensures var va, cap := pool.volatilityReference + Distance(pool.indexReference, pool.activeId) * 10_000,
                           pool.settings.maxVolatilityAccumulator;
            pool.UpdateVolatilityAccumulator().volatilityAccumulator == if va > cap then cap else va
  {
    hide Uint32;
    var va, cap := pool.volatilityReference + Distance(pool.indexReference, pool.activeId) * BASIS_POINT_MAX,
                   pool.settings.maxVolatilityAccumulator;
    Uint32Exact(if va > cap then cap else va);
  }

  /** A bin that charges nothing in a pool that charges something is the reference bin, under a variable fee. */
  lemma FreeBin(pool: Pool)
    ensures var rate := pool.UpdateVolatilityAccumulator().TotalFeeRate();
            && (rate > 0 ==> Charging(pool.settings) || Surcharging(pool.settings))
            && (rate == 0 ==>
                  !Charging(pool.settings) && (Surcharging(pool.settings) ==> pool.activeId == pool.indexReference))
  {
    hide Pool.TotalFeeRate;
    var charged := pool.UpdateVolatilityAccumulator();
    AccumulatorIsDistance(pool);
    if Charging(pool.settings) {
      BaseFeeCharges(charged);
    } else {
      SurchargeCharges(charged);
    }
  }

  /** An amount that the fee leaves at most one unit of at every bin that charges one. */
  predicate Few(left: nat, s: Settings, feeOnInput: bool) {
    left <= 1 || (left == 2 && feeOnInput && (Charging(s) || Surcharging(s)))
  }

  lemma NetOfFew(left: nat, rate: nat, taxed: bool)
    requires left <= 2 && rate <= MAX_FEE_RATE
    ensures left <= 1 ==> Net(left, rate, taxed) <= 1
    ensures taxed && rate > 0 ==> Net(left, rate, taxed) <= 1 && (left <= 1 ==> Net(left, rate, taxed) == 0)
  {
    hide ComputeFeeFromAmount, FloorDiv;
    FeeTaken(left, rate);
    FloorAdjoint(1, left * (FEE_PRECISION - rate), FEE_PRECISION);
    FloorAdjoint(2, left * (FEE_PRECISION - rate), FEE_PRECISION);
  }

  /** A small amount at a bin with something to sell: all of it is spent, or it empties the reference bin for one
      unit. Where the fee leaves nothing of it, it buys nothing. */
  lemma VisitOfFew(pool: Pool, left: U64, swapForY: bool, feeOnInput: bool, reserves: BinReserves)
    requires Few(left, pool.settings, feeOnInput) && MaxOut(reserves, swapForY) > 0
    ensures var visit, rate := Visit(pool, left, swapForY, feeOnInput, reserves),
                               pool.UpdateVolatilityAccumulator().TotalFeeRate();
            visit.Ok? ==>
              var fill := visit.value.1;
              && fill.out <= U64MAX
              && (fill.consumed == left || (left == 2 && fill.consumed == 1 && feeOnInput && AtFreeReference(pool)))
              && (left <= 1 && feeOnInput && rate > 0 ==> fill == Fill(left, 0))
  {
    hide SwapAtBin, PriceFromID, Pool.TotalFeeRate, Pool.UpdateVolatilityAccumulator, Net, Cost, Proceeds, Gross;
    PriceIsPositive(pool.activeId, pool.settings.binStep);
    var price, maxOut := PriceFromID(pool.activeId, pool.settings.binStep), MaxOut(reserves, swapForY);
    var rate := pool.UpdateVolatilityAccumulator().TotalFeeRate();
    FreeBin(pool);
    NetOfFew(left, rate, feeOnInput);
    if price.Ok? {
      CostIsPositive(maxOut, price.value, swapForY);
      BinSound(left, maxOut, price.value, swapForY, feeOnInput, rate);
      var net := Net(left, rate, feeOnInput);
      if Cost(maxOut, price.value, swapForY) < net {
        WholeBin(left, maxOut, price.value, swapForY, feeOnInput, rate);
        NetAffords(left, Cost(maxOut, price.value, swapForY), rate, feeOnInput);
        FreeGross(Cost(maxOut, price.value, swapForY));
      } else if Cost(maxOut, price.value, swapForY) <= U64MAX {
        PartialBin(left, maxOut, price.value, swapForY, feeOnInput, rate);
        NothingSold(maxOut, price.value, swapForY, rate);
      }
    }
  }

  predicate AtFreeReference(pool: Pool) {
    Surcharging(pool.settings) && !Charging(pool.settings) && pool.activeId == pool.indexReference
  }

  lemma FreeGross(net: nat)
    requires net <= U64MAX
    ensures Gross(net, 0, true) == Ok(net)
  {
    FloorUnique(0, FEE_PRECISION - 1, FEE_PRECISION);
  }

  lemma NothingSold(maxOut: U64, price: nat, swapForY: bool, rate: nat)
    requires price > 0 && rate <= MAX_FEE_RATE
    ensures Sold(0, maxOut, price, swapForY) == 0 && Net(0, rate, false) == 0
  {
    hide FloorDiv;
    FloorUnique(0, 0, if swapForY then Q64 else price);
  }

  lemma CostIsPositive(amount: nat, price: nat, swapForY: bool)
    requires price > 0 && amount > 0
    ensures Cost(amount, price, swapForY) >= 1
  {
    hide CeilDiv;
    CeilAdjoint(if swapForY then amount * Q64 else amount * price, if swapForY then price else Q64, 0);
    Positive(amount, price);
  }

  /** Past the reference bin, where every bin charges a variable fee. */
  predicate PastReference(pool: Pool, swapForY: bool) {
    && Surcharging(pool.settings) && !Charging(pool.settings)
    && if swapForY then pool.activeId < pool.indexReference else pool.indexReference < pool.activeId
  }

  /** There, one unit of input buys nothing. */
  lemma {:induction false} RunOfOneTaxed(pool: Pool, left: U64, out: nat, swapForY: bool, bins: BinProvider)
    requires left <= 1 && PastReference(pool, swapForY)
    ensures var end := Run(pool, left, out, swapForY, true, bins);
            end.Ok? ==> end.value.out == out
    decreases BinsLeft(pool.activeId, swapForY)
  {
    hide SwapAtBin, PriceFromID, Pool.TotalFeeRate, Pool.UpdateVolatilityAccumulator;
    if left > 0 && bins(pool.activeId).Some? {
      var reserves, next := bins(pool.activeId).value, NextBin(pool.activeId, swapForY);
      if MaxOut(reserves, swapForY) > 0 {
        FreeBin(pool);
        VisitOfFew(pool, left, swapForY, true, reserves);
      } else if InBinRange(next) {
        RunOfOneTaxed(pool.(activeId := next), left, out, swapForY, bins);
      }
    }
  }

  lemma {:induction false} RunOfFew(pool: Pool, left: U64, out: nat, swapForY: bool,
                                    feeOnInput: bool, bins: BinProvider)
    requires Few(left, pool.settings, feeOnInput)
    ensures var end := Run(pool, left, out, swapForY, feeOnInput, bins);
            end.Ok? ==> end.value.out <= out + U64MAX
    decreases BinsLeft(pool.activeId, swapForY)
  {
    hide Visit, PriceFromID, WithinPrice, Few;
    if left > 0 && bins(pool.activeId).Some? {
      var reserves, next := bins(pool.activeId).value, NextBin(pool.activeId, swapForY);
      VisitSound(pool, left, swapForY, feeOnInput, reserves);
      var visit := Visit(pool, left, swapForY, feeOnInput, reserves);
      if MaxOut(reserves, swapForY) == 0 {
        EmptyVisit(pool, left, swapForY, feeOnInput, reserves);
        if InBinRange(next) {
          RunOfFew(pool.(activeId := next), left, out, swapForY, feeOnInput, bins);
        }
      } else {
        VisitOfFew(pool, left, swapForY, feeOnInput, reserves);
        if visit.Ok? && visit.value.1.consumed < left && InBinRange(next) {
          RunOfOneTaxed(visit.value.0.(activeId := next), 1, out + visit.value.1.out, swapForY, bins);
        }
      }
    }
  }

  lemma EmptyVisit(pool: Pool, left: U64, swapForY: bool, feeOnInput: bool, reserves: BinReserves)
    requires MaxOut(reserves, swapForY) == 0
    ensures Visit(pool, left, swapForY, feeOnInput, reserves) == Ok((pool, Fill(0, 0)))
  {
  }

  lemma VisitJump(pool: Pool, x: nat, swapForY: bool, feeOnInput: bool, reserves: BinReserves)
    requires x + 1 <= U64MAX
    ensures var small, large := Visit(pool, x, swapForY, feeOnInput, reserves),
                                Visit(pool, x + 1, swapForY, feeOnInput, reserves);
            && (small.Err? <==> large.Err?)
            && (small.Ok? ==>
                  && small.value.0 == large.value.0
                  && large.value.0.settings == pool.settings
                  && large.value.1.out <= U64MAX
                  && (|| small.value.1 == large.value.1
                      || (small.value.1.consumed == x && large.value.1.consumed == x + 1)
                      || (&& small.value.1 == Fill(x, large.value.1.out)
                          && large.value.1.consumed <= x + 1
                          && Few(x + 1 - large.value.1.consumed, pool.settings, feeOnInput))))
  {
    hide SwapAtBin, PriceFromID, Pool.TotalFeeRate;
    PriceIsPositive(pool.activeId, pool.settings.binStep);
    VisitSound(pool, x + 1, swapForY, feeOnInput, reserves);
    var price := PriceFromID(pool.activeId, pool.settings.binStep);
    if MaxOut(reserves, swapForY) > 0 && price.Ok? {
      FreeBin(pool);
      BinJump(x, MaxOut(reserves, swapForY), price.value, swapForY, feeOnInput,
              pool.UpdateVolatilityAccumulator().TotalFeeRate());
    }
  }

  /** One more unit of input never adds more than a u64 to a run's total. */
  lemma {:induction false} RunJump(pool: Pool, x: nat, out: nat, swapForY: bool, feeOnInput: bool, bins: BinProvider)
    requires x + 1 <= U64MAX
    ensures var small, large := Run(pool, x, out, swapForY, feeOnInput, bins),
                                Run(pool, x + 1, out, swapForY, feeOnInput, bins);
            small.Ok? && large.Ok? ==> large.value.out <= small.value.out + U64MAX
    decreases BinsLeft(pool.activeId, swapForY)
  {
    hide Visit, PriceFromID, WithinPrice, Few;
    if x == 0 {
      OneIsFew(pool.settings, feeOnInput);
      RunOfFew(pool, 1, out, swapForY, feeOnInput, bins);
    } else if bins(pool.activeId).Some? {
      var reserves, next := bins(pool.activeId).value, NextBin(pool.activeId, swapForY);
      VisitSound(pool, x, swapForY, feeOnInput, reserves);
      VisitSound(pool, x + 1, swapForY, feeOnInput, reserves);
      VisitJump(pool, x, swapForY, feeOnInput, reserves);
      var small, large := Visit(pool, x, swapForY, feeOnInput, reserves),
                          Visit(pool, x + 1, swapForY, feeOnInput, reserves);
      if large.Ok? && InBinRange(next) {
        var moved, fill := large.value.0.(activeId := next), large.value.1;
        if small.value.1 == fill {
          RunJump(moved, x - fill.consumed, out + fill.out, swapForY, feeOnInput, bins);
        } else if fill.consumed < x + 1 {
          RunOfFew(moved, x + 1 - fill.consumed, out + fill.out, swapForY, feeOnInput, bins);
        }
      }
    }
  }

  lemma OneIsFew(s: Settings, feeOnInput: bool)
    ensures Few(1, s, feeOnInput)
  {
  }

  // ---- the volatility fee ----

  /** The variable rate is the least whole rate covering the quadratic surcharge. */
  lemma VariableRateIsLeastCover(pool: Pool, rate: nat)
    ensures var crossed := pool.volatilityAccumulator * pool.settings.binStep;
            pool.VariableFeeRate() <= rate <==>
            pool.settings.variableFeeControl * (crossed * crossed) <= rate * VARIABLE_FEE_SCALE
  {
    var crossed := pool.volatilityAccumulator * pool.settings.binStep;
    CeilingByOffset(pool.settings.variableFeeControl * (crossed * crossed), VARIABLE_FEE_SCALE);
    CeilAdjoint(pool.settings.variableFeeControl * (crossed * crossed), VARIABLE_FEE_SCALE, rate);
  }

  /** The base fee of a pool, in billionths: factor times step times a power of ten. */
  function BaseFee(c: Settings): nat {
    c.baseFactor * c.binStep * Power10(c.baseFeePowerFactor + 1)
  }

  /** Power10 is the power of ten. */
  lemma {:induction false} TenToThe(n: nat)
    ensures Power10(n) as real == RealPow(10.0, n)
  {
    if n > 0 {
      TenToThe(n - 1);
    }
  }

  /** The total rate is the least whole rate that pays the base fee and covers the variable one, up to the cap of
      10%. */
  lemma TotalIsLeastCover(pool: Pool, rate: nat)
    ensures pool.TotalFeeRate() <= 100_000_000
    ensures var c := pool.settings;
            rate < 100_000_000 ==>
              (pool.TotalFeeRate() <= rate <==>
               Covers(rate, BaseFee(c), c.variableFeeControl, pool.volatilityAccumulator * c.binStep, 100_000_000_000))
  {
    hide Pool.VariableFeeRate;
    var c := pool.settings;
    TenTimes(c.baseFactor * c.binStep, Power10(c.baseFeePowerFactor));
    if BaseFee(c) <= rate {
      VariableRateIsLeastCover(pool, rate - BaseFee(c));
    }
  }

  /** What a visit to a bin with something to sell charges: the least whole rate that pays the pool's base fee and
      covers the variable one at the bin's distance from the reference. */
  lemma VisitCharges(pool: Pool, left: U64, swapForY: bool, feeOnInput: bool, reserves: BinReserves) returns (fee: nat)
    requires MaxOut(reserves, swapForY) > 0
    ensures var c := pool.settings;
            var va := pool.volatilityReference + Distance(pool.indexReference, pool.activeId) * 10_000;
            var crossed := (if va > c.maxVolatilityAccumulator then c.maxVolatilityAccumulator else va) * c.binStep;
            && fee <= 100_000_000
            && forall rate: nat | rate < 100_000_000 ::
                 fee <= rate <==> Covers(rate, BaseFee(c), c.variableFeeControl, crossed, 100_000_000_000)
    ensures var price := PriceFromID(pool.activeId, pool.settings.binStep);
            var visit := Visit(pool, left, swapForY, feeOnInput, reserves);
            if price.Err? then visit == Err(price.error)
            else
              match SwapAtBin(left, MaxOut(reserves, swapForY), price.value, swapForY, feeOnInput, fee)
              case Err(e) => visit == Err(e)
              case Ok(fill) => visit.Ok? && visit.value.1 == fill
  {
    hide SwapAtBin, PriceFromID, Pool.TotalFeeRate, Covers, BaseFee;
    var charged := pool.UpdateVolatilityAccumulator();
    AccumulatorIsDistance(pool);
    fee := charged.TotalFeeRate();
    TotalIsLeastCover(charged, 0);
    forall rate: nat | rate < 100_000_000
      ensures fee <= rate <==> Covers(rate, BaseFee(charged.settings), charged.settings.variableFeeControl,
                                      charged.volatilityAccumulator * charged.settings.binStep, 100_000_000_000)
    {
      TotalIsLeastCover(charged, rate);
    }
  }

  /** What a visit trades: nothing at a bin without the token bought, and otherwise what the bin trades at its price for
      the fee charged, unless the bin has no price or the whole of it costs more than a u64. */
  lemma VisitTrades(pool: Pool, left: U64, swapForY: bool, feeOnInput: bool, reserves: BinReserves, stock: U64)
    requires stock == if swapForY then reserves.amountY else reserves.amountX
    ensures var visit := Visit(pool, left, swapForY, feeOnInput, reserves);
            var price, charged := PriceFromID(pool.activeId, pool.settings.binStep), pool.UpdateVolatilityAccumulator();
            if stock == 0 then visit == Ok((pool, Fill(0, 0)))
            else
              && (visit.Ok? <==> price.Ok? && price.value > 0 && Cost(stock, price.value, swapForY) <= U64MAX)
              && (visit.Ok? ==>
                    var rate := charged.TotalFeeRate();
                    visit.value.0 == charged
                    && IsBinTrade(visit.value.1, left, stock, price.value, swapForY,
                                  if feeOnInput then rate else 0, if feeOnInput then 0 else rate))
  {
    hide SwapAtBin, PriceFromID, Cost, IsBinTrade, Pool.TotalFeeRate, Pool.UpdateVolatilityAccumulator;
    PriceIsPositive(pool.activeId, pool.settings.binStep);
    var price := PriceFromID(pool.activeId, pool.settings.binStep);
    if price.Ok? {
      var rate := pool.UpdateVolatilityAccumulator().TotalFeeRate();
      BinSound(left, stock, price.value, swapForY, feeOnInput, rate);
      BinTrades(left, stock, price.value, swapForY, feeOnInput, rate);
    }
  }

  lemma TenTimes(a: nat, b: nat)
    ensures a * 10 * b == a * (10 * b)
  {
    MulAssoc(a, 10, b);
  }

  lemma VariableRateGrows(pool: Pool, a: nat, b: nat)
    requires a <= b
    ensures pool.(volatilityAccumulator := a).VariableFeeRate() <= pool.(volatilityAccumulator := b).VariableFeeRate()
  {
    var step, control := pool.settings.binStep, pool.settings.variableFeeControl;
    var large := pool.(volatilityAccumulator := b);
    MulMono(a, b, step);
    MulMono(a * step, b * step, a * step);
    MulMono(a * step, b * step, b * step);
    MulMono((a * step) * (a * step), (b * step) * (b * step), control);
    VariableRateIsLeastCover(pool.(volatilityAccumulator := a), large.VariableFeeRate());
    VariableRateIsLeastCover(large, large.VariableFeeRate());
  }

  /** The further the active bin is from the reference, the higher the total fee, on either side. */
  lemma FeeNeverFallsWithDistance(pool: Pool, near: int, far: int)
    requires Distance(pool.indexReference, near) <= Distance(pool.indexReference, far)
    ensures pool.(activeId := near).UpdateVolatilityAccumulator().TotalFeeRate()
         <= pool.(activeId := far).UpdateVolatilityAccumulator().TotalFeeRate()
  {
    hide Pool.VariableFeeRate, Pool.UpdateVolatilityAccumulator, Power10;
    var a, b := pool.(activeId := near).UpdateVolatilityAccumulator(),
                pool.(activeId := far).UpdateVolatilityAccumulator();
    AccumulatorGrows(pool, near, far);
    VariableRateGrows(a, a.volatilityAccumulator, b.volatilityAccumulator);
    OnlyAccumulatorMatters(a.(volatilityAccumulator := b.volatilityAccumulator), b);
  }

  lemma AccumulatorGrows(pool: Pool, near: int, far: int)
    requires Distance(pool.indexReference, near) <= Distance(pool.indexReference, far)
    ensures var a, b := pool.(activeId := near).UpdateVolatilityAccumulator(),
                        pool.(activeId := far).UpdateVolatilityAccumulator();
            a.settings == b.settings == pool.settings && a.volatilityAccumulator <= b.volatilityAccumulator
  {
    hide Uint32, Distance;
    AccumulatorIsDistance(pool.(activeId := near));
    AccumulatorIsDistance(pool.(activeId := far));
  }

  lemma OnlyAccumulatorMatters(p: Pool, q: Pool)
    requires p.settings == q.settings && p.volatilityAccumulator == q.volatilityAccumulator
    ensures p.VariableFeeRate() == q.VariableFeeRate()
  {
  }

  /** Exactly how the reference decays: nothing moves within the filter period; past it the reference is the active
      bin, with the accumulator's share rounded down inside the decay period and nothing after. */
  lemma ReferenceDecays(pool: Pool, timestamp: int, k: nat)
    ensures var n, elapsed := pool.UpdateReferences(timestamp), timestamp - pool.lastUpdateTimestamp;
            var c, share := pool.settings, pool.volatilityAccumulator * pool.settings.reductionFactor;
            && n == pool.(indexReference := n.indexReference, volatilityReference := n.volatilityReference)
            && (elapsed < c.filterPeriod ==> n == pool)
            && (elapsed >= c.filterPeriod ==> n.indexReference == pool.activeId)
            && (elapsed >= c.filterPeriod && elapsed >= c.decayPeriod ==> n.volatilityReference == 0)
            && (c.filterPeriod <= elapsed < c.decayPeriod && share < TWO32 * 10_000 ==>
                  (k <= n.volatilityReference <==> k * 10_000 <= share))
  {
    hide Uint32;
    Uint32Share(pool.volatilityAccumulator * pool.settings.reductionFactor, k);
  }
}
