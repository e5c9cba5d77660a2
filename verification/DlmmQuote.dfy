/** The DLMM exact-in quote: what every quote guarantees, and the program's loop over a pool copy whose
    volatility fields it updates in place, proved equal to the run it specifies. */
module DlmmQuote {
  import opened Rounding
  import opened Wrappers
  import opened MachineIntegers
  import opened FixedPow
  import opened DlmmMath
  import opened DlmmSwap

  datatype QuoteResult = QuoteResult(amountOut: U64, amountInConsumed: U64)

  function Uint64Of(n: nat): U64 {
    Uint64(n)
  }

  function QuoteExactIn(pool: Pool, swapForY: bool, amountIn: U64, timestamp: int,
                        bins: BinProvider): Result<QuoteResult, Error> {
    hide Run;
    var decayed := pool.UpdateReferences(timestamp);
    var end :- Run(decayed, amountIn, 0, swapForY, decayed.FeeOnInput(swapForY), bins);
    RunOnlyPays(decayed, amountIn, 0, swapForY, decayed.FeeOnInput(swapForY), bins);
    Ok(QuoteResult(Uint64Of(end.out), amountIn - end.left))
  }

  /** A quote consumes no more than its input, pays no more than the reserves ahead, and never beats the price of the
      first bin that has anything to sell, nor that of the active bin if it has one, whatever the fees, gaps and
      bins crossed. With nothing to sell it consumes and pays nothing. */
  lemma QuoteNeverBeatsActivePrice(pool: Pool, swapForY: bool, amountIn: U64, timestamp: int, bins: BinProvider)
    ensures var quote := QuoteExactIn(pool, swapForY, amountIn, timestamp, bins);
            var first, active := FirstStocked(pool.activeId, swapForY, bins),
                                 PriceFromID(pool.activeId, pool.settings.binStep);
            quote.Ok? ==>
              var consumed, paid := quote.value.amountInConsumed, quote.value.amountOut;
              && consumed <= amountIn
              && paid <= ReservesAhead(pool.activeId, swapForY, bins)
              && (first.None? || amountIn == 0 ==> consumed == paid == 0)
              && (first.Some? && amountIn > 0 ==>
                    var price := PriceFromID(first.value, pool.settings.binStep);
                    price.Ok? && WithinPrice(paid, consumed, price.value, swapForY))
              && (active.Ok? ==> WithinPrice(paid, consumed, active.value, swapForY))
  {
    hide Run, PriceFromID, ReservesAhead, FirstStocked, WithinPrice, Uint64;
    var decayed := pool.UpdateReferences(timestamp);
    var feeOnInput := decayed.FeeOnInput(swapForY);
    var first, active := FirstStocked(pool.activeId, swapForY, bins), PriceFromID(pool.activeId, pool.settings.binStep);
    RunOnlyPays(decayed, amountIn, 0, swapForY, feeOnInput, bins);
    var end := Run(decayed, amountIn, 0, swapForY, feeOnInput, bins);
    if end.Ok? {
      var consumed := amountIn - end.value.left;
      ReportedIsNoMore(end.value.out);
      if amountIn == 0 {
        RunOfNothing(decayed, swapForY, feeOnInput, bins);
      } else {
        RunFindsFirst(decayed, amountIn, 0, swapForY, feeOnInput, bins);
        if first.Some? {
          RunSound(decayed.(activeId := first.value), amountIn, 0, swapForY, feeOnInput, bins, first.value);
          ReportedIsWithin(end.value.out, consumed, PriceFromID(first.value, pool.settings.binStep).value, swapForY);
        }
      }
      if active.Ok? {
        RunSound(decayed, amountIn, 0, swapForY, feeOnInput, bins, pool.activeId);
        ReportedIsWithin(end.value.out, consumed, active.value, swapForY);
      }
    }
  }

  lemma RunOfNothing(pool: Pool, swapForY: bool, feeOnInput: bool, bins: BinProvider)
    ensures Run(pool, 0, 0, swapForY, feeOnInput, bins) == Ok(End(0, 0))
  {
  }

  /** Reporting a total modulo 2^64 never raises it. */
  lemma ReportedIsNoMore(out: nat)
    ensures Uint64(out) <= out
  {
  }

  lemma ReportedIsWithin(out: nat, spent: nat, price: nat, swapForY: bool)
    requires WithinPrice(out, spent, price, swapForY)
    ensures WithinPrice(Uint64(out), spent, price, swapForY)
  {
    MulMono(Uint64(out), out, Q64);
    MulMono(Uint64(out), out, price);
  }

  /** How a quote starts, in every direction and with the fee on either side. Without a bin there is nothing to trade;
      the first visit is at the active bin, over the decayed references; an input it uses up ends the quote there, and
      so does the last bin of the range; otherwise the rest goes on to the next bin, one down for Y and one up for X. */
  lemma QuoteStarts(pool: Pool, swapForY: bool, amountIn: U64, timestamp: int, bins: BinProvider, feeOnInput: bool)
    requires amountIn > 0 && (feeOnInput <==> pool.settings.collectFeeMode != 1 || !swapForY)
    ensures var quote := QuoteExactIn(pool, swapForY, amountIn, timestamp, bins);
            match bins(pool.activeId)
            case None => quote == Ok(QuoteResult(0, 0))
            case Some(reserves) =>
              match Visit(pool.UpdateReferences(timestamp), amountIn, swapForY, feeOnInput, reserves)
              case Err(e) => quote == Err(e)
              case Ok((visited, fill)) =>
                fill.consumed <= amountIn && fill.out <= U64MAX
                && var id := if swapForY then pool.activeId - 1 else pool.activeId + 1;
                if fill.consumed == amountIn || id < -443_636 || id > 443_636
                then quote == Ok(QuoteResult(fill.out, fill.consumed))
                else
                  match Run(visited.(activeId := id), amountIn - fill.consumed, fill.out, swapForY, feeOnInput, bins)
                  case Err(e) => quote == Err(e)
                  case Ok(end) => end.left <= amountIn
                                  && quote == Ok(QuoteResult(Uint64Of(end.out), amountIn - end.left))
  {
    hide Visit, Run, Uint64, PriceFromID, WithinPrice, ReservesAhead;
    var decayed := pool.UpdateReferences(timestamp);
    assert decayed.FeeOnInput(swapForY) == feeOnInput && decayed.activeId == pool.activeId;
    hide Pool.UpdateReferences;
    RunUnfolds(decayed, amountIn, 0, swapForY, feeOnInput, bins);
    RunOnlyPays(decayed, amountIn, 0, swapForY, feeOnInput, bins);
    Uint64Exact(0);
    if bins(pool.activeId).Some? {
      VisitSound(decayed, amountIn, swapForY, feeOnInput, bins(pool.activeId).value);
      var visit := Visit(decayed, amountIn, swapForY, feeOnInput, bins(pool.activeId).value);
      if visit.Ok? {
        Uint64Exact(visit.value.1.out);
      }
    }
  }

  /** The true total behind a quote. */
  function Total(pool: Pool, swapForY: bool, amountIn: U64, timestamp: int, bins: BinProvider): Result<nat, Error> {
    var decayed := pool.UpdateReferences(timestamp);
    var end :- Run(decayed, amountIn, 0, swapForY, decayed.FeeOnInput(swapForY), bins);
    Ok(end.out)
  }

  /** More input never buys less in truth, and the smaller quote succeeds wherever the larger does. What is reported
      keeps that order while the reserves ahead, after their fees, fit a u64; OrderedIffUnwrapped is exact. */
  lemma QuoteMonotone(pool: Pool, swapForY: bool, a: U64, b: U64, timestamp: int, bins: BinProvider)
    requires a <= b
    ensures var small, large := QuoteExactIn(pool, swapForY, a, timestamp, bins),
                                QuoteExactIn(pool, swapForY, b, timestamp, bins);
            var x, y := Total(pool, swapForY, a, timestamp, bins), Total(pool, swapForY, b, timestamp, bins);
            var decayed := pool.UpdateReferences(timestamp);
            var ahead := PayoutAhead(decayed, swapForY, decayed.FeeOnInput(swapForY), bins);
            large.Ok? ==>
              && small.Ok? && x.Ok? && y.Ok? && x.value <= y.value
              && (ahead <= U64MAX ==> small.value.amountOut <= large.value.amountOut)
  {
    hide Run, PayoutAhead, Uint64;
    var decayed := pool.UpdateReferences(timestamp);
    var feeOnInput := decayed.FeeOnInput(swapForY);
    RunMonotone(decayed, a, b, 0, 0, swapForY, feeOnInput, bins);
    LeftoverMeansEmptied(decayed, b, 0, swapForY, feeOnInput, bins);
    var x, y := Total(pool, swapForY, a, timestamp, bins), Total(pool, swapForY, b, timestamp, bins);
    if y.Ok? && y.value <= U64MAX {
      Uint64Exact(x.value);
      Uint64Exact(y.value);
    }
  }

  /** Every two quotes of at most `limit` are reported in the order of their inputs. */
  ghost predicate OrderedUpTo(pool: Pool, swapForY: bool, limit: U64, timestamp: int, bins: BinProvider) {
    forall a: U64, b: U64 :: a <= b <= limit ==> Ordered(pool, swapForY, a, b, timestamp, bins)
  }

  predicate Ordered(pool: Pool, swapForY: bool, a: U64, b: U64, timestamp: int, bins: BinProvider) {
    var small, large := QuoteExactIn(pool, swapForY, a, timestamp, bins),
                        QuoteExactIn(pool, swapForY, b, timestamp, bins);
    small.Ok? && large.Ok? && small.value.amountOut <= large.value.amountOut
  }

  /** The input at which a total leaves u64. */
  lemma {:induction false} Crossing(pool: Pool, swapForY: bool, limit: U64, timestamp: int, bins: BinProvider)
    returns (x: nat)
    requires var total := Total(pool, swapForY, limit, timestamp, bins);
             total.Ok? && total.value > U64MAX
    ensures x < limit
    ensures var below, above := Total(pool, swapForY, x, timestamp, bins),
                                Total(pool, swapForY, x + 1, timestamp, bins);
            below.Ok? && above.Ok? && below.value <= U64MAX < above.value
    decreases limit
  {
    hide Run;
    var decayed := pool.UpdateReferences(timestamp);
    RunOfNothing(decayed, swapForY, decayed.FeeOnInput(swapForY), bins);
    RunMonotone(decayed, limit - 1, limit, 0, 0, swapForY, decayed.FeeOnInput(swapForY), bins);
    if Total(pool, swapForY, limit - 1, timestamp, bins).value <= U64MAX {
      return limit - 1;
    }
    x := Crossing(pool, swapForY, limit - 1, timestamp, bins);
  }

  /** The reported quotes keep the order of their inputs exactly while the running total of the largest one never
      wraps: where it does, two neighbouring inputs are out of order. */
  lemma OrderedIffUnwrapped(pool: Pool, swapForY: bool, limit: U64, timestamp: int, bins: BinProvider)
    requires QuoteExactIn(pool, swapForY, limit, timestamp, bins).Ok?
    ensures var total := Total(pool, swapForY, limit, timestamp, bins);
            total.Ok? && (OrderedUpTo(pool, swapForY, limit, timestamp, bins) <==> total.value <= U64MAX)
  {
    hide QuoteExactIn, Run, PayoutAhead, Uint64;
    var total := Total(pool, swapForY, limit, timestamp, bins);
    QuoteIsTotal(pool, swapForY, limit, timestamp, bins);
    if total.value <= U64MAX {
      forall a: U64, b: U64 | a <= b <= limit
        ensures Ordered(pool, swapForY, a, b, timestamp, bins)
      {
        UnwrappedIsOrdered(pool, swapForY, a, b, limit, timestamp, bins);
      }
    } else {
      var x := Crossing(pool, swapForY, limit, timestamp, bins);
      CrossingFalls(pool, swapForY, x, timestamp, bins);
      assert !Ordered(pool, swapForY, x, x + 1, timestamp, bins);
    }
  }

  lemma QuoteIsTotal(pool: Pool, swapForY: bool, amountIn: U64, timestamp: int, bins: BinProvider)
    ensures var quote, total := QuoteExactIn(pool, swapForY, amountIn, timestamp, bins),
                                Total(pool, swapForY, amountIn, timestamp, bins);
            && (quote.Ok? <==> total.Ok?)
            && (quote.Ok? ==> quote.value.amountOut == Uint64(total.value))
  {
    hide Run, Uint64;
  }

  lemma UnwrappedIsOrdered(pool: Pool, swapForY: bool, a: U64, b: U64, limit: U64, timestamp: int, bins: BinProvider)
    requires a <= b <= limit
    requires var total := Total(pool, swapForY, limit, timestamp, bins);
             total.Ok? && total.value <= U64MAX
    ensures Ordered(pool, swapForY, a, b, timestamp, bins)
  {
    hide QuoteExactIn, Run, Uint64;
    var decayed := pool.UpdateReferences(timestamp);
    RunMonotone(decayed, b, limit, 0, 0, swapForY, decayed.FeeOnInput(swapForY), bins);
    RunMonotone(decayed, a, b, 0, 0, swapForY, decayed.FeeOnInput(swapForY), bins);
    QuoteIsTotal(pool, swapForY, a, timestamp, bins);
    QuoteIsTotal(pool, swapForY, b, timestamp, bins);
    Uint64Exact(Total(pool, swapForY, a, timestamp, bins).value);
    Uint64Exact(Total(pool, swapForY, b, timestamp, bins).value);
  }

  lemma CrossingFalls(pool: Pool, swapForY: bool, x: nat, timestamp: int, bins: BinProvider)
    requires x + 1 <= U64MAX
    requires var below, above := Total(pool, swapForY, x, timestamp, bins),
                                 Total(pool, swapForY, x + 1, timestamp, bins);
             below.Ok? && above.Ok? && below.value <= U64MAX < above.value
    ensures !Ordered(pool, swapForY, x, x + 1, timestamp, bins)
  {
    hide QuoteExactIn, Run, Uint64;
    var decayed := pool.UpdateReferences(timestamp);
    RunJump(decayed, x, 0, swapForY, decayed.FeeOnInput(swapForY), bins);
    QuoteIsTotal(pool, swapForY, x, timestamp, bins);
    QuoteIsTotal(pool, swapForY, x + 1, timestamp, bins);
    var below, above := Total(pool, swapForY, x, timestamp, bins).value,
                        Total(pool, swapForY, x + 1, timestamp, bins).value;
    Uint64Exact(below);
    WrapsOnce(above);
  }

  lemma WrapsOnce(n: nat)
    requires U64MAX < n <= 2 * U64MAX
    ensures Uint64(n) == n - Q64
  {
  }

  // ---- why the total has to fit ----

  /** No fees, and a bin step that doubles the price. */
  const FREE: Settings := Settings(10_000, 0, 0, 0, 0, 0, 0, 0, 0)

  /** The input that empties the upper bin exactly. */
  const FULL_BIN_COST: U64 := 0x7FFF_FFFF_FFFF_FFFF

  /** Two full bins: together they hold more than a u64. */
  function TwoFullBins(id: int): Option<BinReserves> {
    if 0 <= id <= 1 then Some(BinReserves(0, U64MAX)) else None
  }

  lemma DoublingPrices()
    ensures PriceFromID(0, 10_000) == Ok(Q64) && PriceFromID(1, 10_000) == Ok(0x2_0000_0000_0000_0004)
  {
    hide Product;
    ZerothAndFirst(Normalised(2 * Q64));
    FloorUnique(0x7FFF_FFFF_FFFF_FFFF, U128MAX, 2 * Q64);
    FloorUnique(0x2_0000_0000_0000_0004, U128MAX, 0x7FFF_FFFF_FFFF_FFFF);
  }

  lemma FreeOfFees(pool: Pool, amount: U64)
    requires pool.settings == FREE
    ensures pool.TotalFeeRate() == 0
    ensures Net(amount, 0, true) == Net(amount, 0, false) == amount && Gross(amount, 0, true) == Ok(amount)
  {
    FloorUnique(0, FEE_PRECISION - 1, FEE_PRECISION);
  }

  lemma FullBinCost()
    ensures Cost(U64MAX, 0x2_0000_0000_0000_0004, true) == FULL_BIN_COST
    ensures Sold(FULL_BIN_COST, U64MAX, 0x2_0000_0000_0000_0004, true) == U64MAX
  {
    hide CeilDiv, FloorDiv;
    CeilAdjoint(U64MAX * Q64, 0x2_0000_0000_0000_0004, FULL_BIN_COST);
    CeilAdjoint(U64MAX * Q64, 0x2_0000_0000_0000_0004, FULL_BIN_COST - 1);
    FloorAdjoint(U64MAX, 0x2_0000_0000_0000_0004 * FULL_BIN_COST, Q64);
  }

  lemma UnitBinCost()
    ensures Cost(U64MAX, Q64, true) == U64MAX && Sold(1, U64MAX, Q64, true) == 1
  {
    hide CeilDiv, FloorDiv;
    CeilAdjoint(U64MAX * Q64, Q64, U64MAX);
    CeilAdjoint(U64MAX * Q64, Q64, U64MAX - 1);
    FloorUnique(1, Q64 * 1, Q64);
  }

  lemma TwoBinFills(rate: nat)
    requires rate == 0
    ensures SwapAtBin(FULL_BIN_COST, U64MAX, 0x2_0000_0000_0000_0004, true, true, rate)
         == Ok(Fill(FULL_BIN_COST, U64MAX))
    ensures SwapAtBin(FULL_BIN_COST + 1, U64MAX, 0x2_0000_0000_0000_0004, true, true, rate)
         == Ok(Fill(FULL_BIN_COST, U64MAX))
    ensures SwapAtBin(1, U64MAX, Q64, true, true, rate) == Ok(Fill(1, 1))
  {
    hide SwapAtBin, Net, Gross, Cost, Sold;
    FullBinCost();
    UnitBinCost();
    var pool := Pool(FREE, 1, 0, 0, 1, 0);
    FreeOfFees(pool, FULL_BIN_COST);
    FreeOfFees(pool, FULL_BIN_COST + 1);
    FreeOfFees(pool, U64MAX);
    FreeOfFees(pool, 1);
    WholeBin(FULL_BIN_COST + 1, U64MAX, 0x2_0000_0000_0000_0004, true, true, 0);
    PartialBin(FULL_BIN_COST, U64MAX, 0x2_0000_0000_0000_0004, true, true, 0);
    PartialBin(1, U64MAX, Q64, true, true, 0);
  }

  /** Where the reserves ahead exceed a u64, one more unit of input can turn the largest quote into none. */
  lemma UnfittingReservesBreakOrder()
    ensures var pool := Pool(FREE, 1, 0, 0, 1, 0);
            && ReservesAhead(1, true, TwoFullBins) == 2 * U64MAX
            && QuoteExactIn(pool, true, FULL_BIN_COST, 0, TwoFullBins) == Ok(QuoteResult(U64MAX, FULL_BIN_COST))
            && QuoteExactIn(pool, true, FULL_BIN_COST + 1, 0, TwoFullBins) == Ok(QuoteResult(0, FULL_BIN_COST + 1))
  {
    hide SwapAtBin, PriceFromID, Pool.TotalFeeRate, Pool.UpdateVolatilityAccumulator;
    var pool := Pool(FREE, 1, 0, 0, 1, 0);
    var decayed := pool.UpdateReferences(0);
    assert decayed.FeeOnInput(true) && decayed.settings == FREE && decayed.activeId == 1;
    DoublingPrices();
    TwoBinFills(0);
    StillFree(decayed);
    var visited := decayed.UpdateVolatilityAccumulator();
    var below := visited.(activeId := 0);
    StillFree(below);
    assert Run(below, 1, U64MAX, true, true, TwoFullBins) == Ok(End(0, U64MAX + 1));
  }

  lemma StillFree(pool: Pool)
    requires pool.settings == FREE
    ensures pool.UpdateVolatilityAccumulator().settings == FREE
            && pool.UpdateVolatilityAccumulator().activeId == pool.activeId
    ensures pool.UpdateVolatilityAccumulator().TotalFeeRate() == 0
  {
    FreeOfFees(pool.UpdateVolatilityAccumulator(), 0);
  }

  // ---- the program ----

  class SwapPool {
    const settings: Settings
    var activeId: int
    var volatilityAccumulator: nat
    var volatilityReference: nat
    var indexReference: int
    const lastUpdateTimestamp: int

    function Model(): Pool
      reads this
    {
      Pool(settings, activeId, volatilityAccumulator, volatilityReference, indexReference, lastUpdateTimestamp)
    }

    constructor (pool: Pool)
      ensures Model() == pool
    {
      settings, activeId := pool.settings, pool.activeId;
      volatilityAccumulator, volatilityReference := pool.volatilityAccumulator, pool.volatilityReference;
      indexReference, lastUpdateTimestamp := pool.indexReference, pool.lastUpdateTimestamp;
    }

    method UpdateReferences(timestamp: int)
      modifies this`indexReference, this`volatilityReference
      ensures Model() == old(Model()).UpdateReferences(timestamp)
    {
      var elapsed := timestamp - lastUpdateTimestamp;
      if elapsed < settings.filterPeriod {
        return;
      }
      indexReference := activeId;
      if elapsed < settings.decayPeriod {
        volatilityReference := Uint32(volatilityAccumulator * settings.reductionFactor / BASIS_POINT_MAX);
        return;
      }
      volatilityReference := 0;
    }

    method UpdateVolatilityAccumulator()
      modifies this`volatilityAccumulator
      ensures Model() == old(Model()).UpdateVolatilityAccumulator()
    {
      var delta := indexReference - activeId;
      if delta < 0 {
        delta := -delta;
      }
      var va := volatilityReference + delta * BASIS_POINT_MAX;
      if va > settings.maxVolatilityAccumulator {
        va := settings.maxVolatilityAccumulator;
      }
      volatilityAccumulator := Uint32(va);
    }

    /** One bin of the loop. On an error the accumulator has already moved, as in the program. */
    method FillBin(left: U64, swapForY: bool, feeOnInput: bool, reserves: BinReserves)
      returns (fill: Result<Fill, Error>)
      requires IsInt32(activeId)
      modifies this`volatilityAccumulator
      ensures Visit(old(Model()), left, swapForY, feeOnInput, reserves)
           == match fill case Ok(f) => Ok((Model(), f)) case Err(e) => Err(e)
    {
      hide SwapAtBin, PriceFromID, Pool.TotalFeeRate, Pool.UpdateVolatilityAccumulator;
      var maxOut := MaxOut(reserves, swapForY);
      if maxOut == 0 {
        return Ok(Fill(0, 0));
      }
      UpdateVolatilityAccumulator();
      var price := ComputePriceFromID(activeId, settings.binStep);
      if price.Err? {
        return Err(price.error);
      }
      fill := SwapAtBin(left, maxOut, price.value, swapForY, feeOnInput, Model().TotalFeeRate());
    }
  }

  method QuoteExactInDetailed(pool: Pool, swapForY: bool, amountIn: U64, timestamp: int, bins: BinProvider)
    returns (quote: Result<QuoteResult, Error>)
    requires IsInt32(pool.activeId)
    ensures quote == QuoteExactIn(pool, swapForY, amountIn, timestamp, bins)
  {
    hide Run, Visit, Pool.UpdateReferences, ReservesAhead, PriceFromID, WithinPrice, MaxOut, Uint64;
    var p := new SwapPool(pool);
    p.UpdateReferences(timestamp);
    var feeOnInput := p.Model().FeeOnInput(swapForY);
    ghost var whole := Run(p.Model(), amountIn, 0, swapForY, feeOnInput, bins);
    var amountLeft: U64, totalOut: U64 := amountIn, 0;
    ghost var out: nat := 0;
    WrappedTotals(0, 0);
    while amountLeft > 0
      invariant Run(p.Model(), amountLeft, out, swapForY, feeOnInput, bins) == whole
      invariant IsInt32(p.activeId) && amountLeft <= amountIn && totalOut == Uint64(out)
      decreases amountLeft > 0, BinsLeft(p.activeId, swapForY)
    {
      var reserves := bins(p.activeId);
      RunUnfolds(p.Model(), amountLeft, out, swapForY, feeOnInput, bins);
      if reserves.None? {
        break;
      }
      VisitSound(p.Model(), amountLeft, swapForY, feeOnInput, reserves.value);
      var fill :- p.FillBin(amountLeft, swapForY, feeOnInput, reserves.value);
      WrappedTotals(out, fill.out);
      amountLeft := amountLeft - fill.consumed;
      totalOut := Uint64Of(totalOut + fill.out);
      out := out + fill.out;
      if amountLeft > 0 {
        var next := NextBin(p.activeId, swapForY);
        if !InBinRange(next) {
          break;
        }
        p.activeId := next;
      } else {
        RunUnfolds(p.Model(), amountLeft, out, swapForY, feeOnInput, bins);
      }
    }
    RunUnfolds(p.Model(), amountLeft, out, swapForY, feeOnInput, bins);
    return Ok(QuoteResult(totalOut, amountIn - amountLeft));
  }

  /** One turn of the run: the bins of the range one by one, down for Y and up for X. */
  lemma RunUnfolds(pool: Pool, left: U64, out: nat, swapForY: bool, feeOnInput: bool, bins: BinProvider)
    ensures var run, reserves := Run(pool, left, out, swapForY, feeOnInput, bins), bins(pool.activeId);
            if left == 0 || reserves.None? then run == Ok(End(left, out))
            else
              match Visit(pool, left, swapForY, feeOnInput, reserves.value)
              case Err(e) => run == Err(e)
              case Ok((visited, fill)) =>
                var next := if swapForY then pool.activeId - 1 else pool.activeId + 1;
                && fill.consumed <= left
                && var rest := left - fill.consumed;
                if rest == 0 || next < -443_636 || next > 443_636 then run == Ok(End(rest, out + fill.out))
                else run == Run(visited.(activeId := next), rest, out + fill.out, swapForY, feeOnInput, bins)
  {
    hide Visit, PriceFromID, WithinPrice;
    if left > 0 && bins(pool.activeId).Some? {
      VisitSound(pool, left, swapForY, feeOnInput, bins(pool.activeId).value);
    }
  }

  lemma WrappedTotals(total: nat, more: nat)
    ensures Uint64(Uint64(total) + more) == Uint64(total + more)
    ensures Uint64(0) == 0
  {
  }
}
