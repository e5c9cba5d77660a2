/** The single-bin DLMM quote with its fee shares and new reserves, and its agreement with the fill the
    whole-run quote makes at a bin. */
module DlmmBin {
  import opened Rounding
  import opened Wrappers
  import opened FixedPow
  import opened DlmmMath
  import opened DlmmSwap

  datatype BinSwapQuote = BinSwapQuote(
    amountInWithFees: nat,
    amountOut: nat,
    fee: nat,
    protocolFeeAfterHost: nat,
    hostFee: nat,
    amountIntoBin: nat,
    newReserveX: nat,
    newReserveY: nat
  )

  function AddU64(a: nat, b: nat): Result<nat, Error> {
    if a + b > U64MAX then Err(MathOverflow) else Ok(a + b)
  }

  function SubU64(a: nat, b: nat): Result<nat, Error> {
    if a < b then Err(MathOverflow) else Ok(a - b)
  }

  function ShareOf(amount: nat, bps: nat): Result<nat, Error> {
    CastU64(FloorDiv(amount * bps, BASIS_POINT_MAX))
  }

  datatype Trade = Trade(amountInWithFees: nat, amountOut: nat, fee: nat)

  /** Everything the bin can sell, or what the input buys after its fee. */
  function TradeOnBin(amountIn: U64, maxOut: U64, price: nat, swapForY: bool, rate: nat): Result<Trade, Error> {
    var maxIn :- AmountInFromAmountOut(maxOut, price, swapForY);
    var maxFee :- ComputeFee(maxIn, rate);
    var maxInWithFee :- AddU64(maxIn, maxFee);
    if amountIn > maxInWithFee then Ok(Trade(maxInWithFee, maxOut, maxFee))
    else
      var fee :- ComputeFeeFromAmount(amountIn, rate);
      var afterFee :- SubU64(amountIn, fee);
      var out :- AmountOutFromAmountIn(afterFee, price, swapForY);
      Ok(Trade(amountIn, if out < maxOut then out else maxOut, fee))
  }

  function QuoteSwapOnBin(amountIn: U64, reserves: BinReserves, price: nat, swapForY: bool, rate: nat,
                          protocolShareBps: nat, hostFeeBps: Option<nat>): Result<BinSwapQuote, Error> {
    var trade :- TradeOnBin(amountIn, MaxOut(reserves, swapForY), price, swapForY, rate);
    var protocolFee :- ShareOf(trade.fee, protocolShareBps);
    var hostFee :- if hostFeeBps.Some? then ShareOf(protocolFee, hostFeeBps.value) else Ok(0);
    var afterHost :- SubU64(protocolFee, hostFee);
    var into :- SubU64(trade.amountInWithFees, trade.fee);
    var newX :- if swapForY then AddU64(reserves.amountX, into) else SubU64(reserves.amountX, trade.amountOut);
    var newY :- if swapForY then SubU64(reserves.amountY, trade.amountOut) else AddU64(reserves.amountY, into);
    Ok(BinSwapQuote(trade.amountInWithFees, trade.amountOut, trade.fee, afterHost, hostFee, into, newX, newY))
  }

  /** What a trade on a bin comes to: the exact gross price of the whole bin, or everything for what the net input buys,
      up to the reserve. It fails exactly when that gross price, or what the net input is worth, leaves a u64. */
  lemma TradeSound(amountIn: U64, maxOut: U64, price: nat, swapForY: bool, rate: nat)
    requires 0 < price <= U128MAX && rate <= MAX_FEE_RATE
    ensures var trade := TradeOnBin(amountIn, maxOut, price, swapForY, rate);
            var maxIn, net := Cost(maxOut, price, swapForY), Net(amountIn, rate, true);
            var gross := Gross(maxIn, rate, true);
            && (trade.Ok? <==> && maxIn <= U64MAX && gross.Ok? && gross.value <= U64MAX
                               && (gross.value < amountIn || Proceeds(net, price, swapForY) <= U64MAX))
            && (trade.Ok? ==>
                  trade.value == if amountIn > gross.value then Trade(gross.value, maxOut, gross.value - maxIn)
                  else Trade(amountIn, Sold(net, maxOut, price, swapForY), amountIn - net))
  {
    hide ComputeFee, ComputeFeeFromAmount, Cost, Proceeds, AmountInFromAmountOut, AmountOutFromAmountIn;
    CheckedAmounts(maxOut, price, swapForY);
    CheckedAmounts(Net(amountIn, rate, true), price, swapForY);
    FeesAdjoint(amountIn, 0, rate);
  }

  /** The two bin implementations agree: with the fee on the input they give the same output, and what
      they consume differs by at most one. It differs exactly when the input is one more than the whole
      bin's gross price and the extra unit all goes to the fee. */
  lemma BinImplementationsAgree(amountIn: U64, maxOut: U64, price: nat, swapForY: bool, rate: nat)
    requires 0 < price <= U128MAX && rate <= MAX_FEE_RATE
    requires TradeOnBin(amountIn, maxOut, price, swapForY, rate).Ok?
    ensures var fill := SwapAtBin(amountIn, maxOut, price, swapForY, true, rate);
            var trade := TradeOnBin(amountIn, maxOut, price, swapForY, rate).value;
            var maxIn := Cost(maxOut, price, swapForY);
            && fill.Ok? && Gross(maxIn, rate, true).Ok?
            && fill.value.out == trade.amountOut
            && trade.amountInWithFees <= fill.value.consumed <= trade.amountInWithFees + 1
            && (fill.value.consumed != trade.amountInWithFees <==>
                amountIn == Gross(maxIn, rate, true).value + 1 && Net(amountIn, rate, true) == maxIn)
  {
    hide SwapAtBin, TradeOnBin, Cost, Proceeds, Net, Gross;
    var maxIn, net := Cost(maxOut, price, swapForY), Net(amountIn, rate, true);
    TradeSound(amountIn, maxOut, price, swapForY, rate);
    var gross := Gross(maxIn, rate, true).value;
    GrossCovers(amountIn, maxIn, rate);
    SoldWhole(net, maxOut, price, swapForY);
    if maxIn < net {
      WholeBin(amountIn, maxOut, price, swapForY, true, rate);
    } else {
      PartialBin(amountIn, maxOut, price, swapForY, true, rate);
      if amountIn > gross + 1 {
        GrossCovers(gross, maxIn, rate);
        TwoMoreLeaveOneMore(gross, amountIn, rate);
      }
    }
    UntaxedOutput(maxOut, rate);
    UntaxedOutput(Sold(net, maxOut, price, swapForY), rate);
  }

  lemma GrossCovers(amountIn: U64, net: nat, rate: nat)
    requires rate <= MAX_FEE_RATE && Gross(net, rate, true).Ok?
    ensures Gross(net, rate, true).value <= amountIn <==> net <= Net(amountIn, rate, true)
  {
    hide ComputeFee, ComputeFeeFromAmount;
    FeesAdjoint(amountIn, net, rate);
  }

  lemma SoldWhole(net: nat, maxOut: U64, price: nat, swapForY: bool)
    requires price > 0
    ensures Cost(maxOut, price, swapForY) <= net <==> Sold(net, maxOut, price, swapForY) == maxOut
  {
    BinAdjoint(net, maxOut, price, swapForY);
  }

  /** A bin's value at its own price. */
  function BinValue(reserveX: nat, reserveY: nat, price: nat): nat {
    price * reserveX + Q64 * reserveY
  }

  /** A swap on a bin moves exactly what it reports, splits its fee without loss, and never lowers the
      bin's value price * X + 2^64 * Y. */
  lemma SwapKeepsBinValue(amountIn: U64, reserves: BinReserves, price: nat, swapForY: bool, rate: nat,
                          protocolShareBps: nat, hostFeeBps: Option<nat>)
    requires 0 < price <= U128MAX && rate <= MAX_FEE_RATE
    ensures var quote := QuoteSwapOnBin(amountIn, reserves, price, swapForY, rate, protocolShareBps, hostFeeBps);
            quote.Ok? ==>
              var q := quote.value;
              && q.amountIntoBin + q.fee == q.amountInWithFees <= amountIn
              && ShareOf(q.fee, protocolShareBps) == Ok(q.protocolFeeAfterHost + q.hostFee)
              && (if swapForY then q.newReserveX == reserves.amountX + q.amountIntoBin
                                   && q.newReserveY + q.amountOut == reserves.amountY
                  else q.newReserveY == reserves.amountY + q.amountIntoBin
                       && q.newReserveX + q.amountOut == reserves.amountX)
              && BinValue(reserves.amountX, reserves.amountY, price) <= BinValue(q.newReserveX, q.newReserveY, price)
  {
    hide TradeOnBin, ShareOf, Cost, Proceeds, Gross, Net;
    var quote := QuoteSwapOnBin(amountIn, reserves, price, swapForY, rate, protocolShareBps, hostFeeBps);
    if quote.Ok? {
      var maxOut := MaxOut(reserves, swapForY);
      TradeSound(amountIn, maxOut, price, swapForY, rate);
      GrossAtLeastNet(Cost(maxOut, price, swapForY), rate);
      var net := Net(amountIn, rate, true);
      var sold := Sold(net, maxOut, price, swapForY);
      BinAdjoint(net, sold, price, swapForY);
      CostIsWithinPrice(sold, net, price, swapForY);
      CostIsWithinPrice(maxOut, Cost(maxOut, price, swapForY), price, swapForY);
      var q := quote.value;
      ValueKept(reserves.amountX, reserves.amountY, q.amountIntoBin, q.amountOut, price, swapForY);
    }
  }

  /** The reported amounts, from the net input, the price of the whole bin and the least input that leaves that price
      after the fee: the whole bin for that input, or as much as the net input buys. What goes into the bin is the price
      or the net input. */
  predicate ReportsTrade(q: BinSwapQuote, net: nat, cost: nat, gross: nat, amountIn: nat, stock: nat, price: nat,
                         swapForY: bool, rate: nat)
  {
    && IsShare(net, amountIn, 1_000_000_000 - rate, 1_000_000_000) && IsCost(cost, stock, price, swapForY)
    && IsLeastGross(gross, cost, 1_000_000_000 - rate, 1_000_000_000)
    && if amountIn > gross then q.amountInWithFees == gross && q.amountOut == stock && q.amountIntoBin == cost
       else q.amountInWithFees == amountIn && IsSold(q.amountOut, net, stock, price, swapForY) && q.amountIntoBin == net
  }

  /** What a bin quote reports, exactly: the trade, and the shares of its fee, each rounded down. The host's share is
      taken out of the protocol's. */
  lemma BinQuoteIsTrade(amountIn: U64, reserves: BinReserves, price: nat, swapForY: bool, rate: nat,
                        protocolShareBps: nat, hostFeeBps: Option<nat>, stock: U64)
    requires 0 < price <= U128MAX && rate <= MAX_FEE_RATE
    requires stock == if swapForY then reserves.amountY else reserves.amountX
    ensures var quote := QuoteSwapOnBin(amountIn, reserves, price, swapForY, rate, protocolShareBps, hostFeeBps);
            quote.Ok? ==>
              var q := quote.value;
              var protocol := q.protocolFeeAfterHost + q.hostFee;
              && (exists net, cost, gross :: ReportsTrade(q, net, cost, gross, amountIn, stock, price, swapForY, rate))
              && q.amountIntoBin + q.fee == q.amountInWithFees
              && IsShare(protocol, q.fee, protocolShareBps, 10_000)
              && (if hostFeeBps.Some? then IsShare(q.hostFee, protocol, hostFeeBps.value, 10_000) else q.hostFee == 0)
  {
    hide TradeOnBin, ShareOf, Cost, Proceeds, Gross, Net, Sold, IsShare, IsLeastGross, IsCost, IsSold;
    var quote := QuoteSwapOnBin(amountIn, reserves, price, swapForY, rate, protocolShareBps, hostFeeBps);
    if quote.Ok? {
      var net, cost := Net(amountIn, rate, true), Cost(stock, price, swapForY);
      TradeSound(amountIn, stock, price, swapForY, rate);
      FeeShares(amountIn, cost, rate, true);
      SoldIs(net, stock, price, swapForY);
      var q := quote.value;
      assert ReportsTrade(q, net, cost, Gross(cost, rate, true).value, amountIn, stock, price, swapForY, rate);
      ShareIsFloor(q.fee, protocolShareBps);
      if hostFeeBps.Some? {
        ShareIsFloor(q.protocolFeeAfterHost + q.hostFee, hostFeeBps.value);
      }
    }
  }

  lemma ShareIsFloor(amount: nat, bps: nat)
    ensures ShareOf(amount, bps).Ok? <==> FloorDiv(amount * bps, 10_000) <= U64MAX
    ensures ShareOf(amount, bps).Ok? ==> IsShare(ShareOf(amount, bps).value, amount, bps, 10_000)
  {
    FloorIsShare(amount, bps, 10_000);
  }

  /** A bin quote fails exactly when the trade does, when a share of the fee or the new reserve leaves a u64, or when
      the host's share exceeds the protocol's. */
  lemma BinQuoteFails(amountIn: U64, reserves: BinReserves, price: nat, swapForY: bool, rate: nat,
                      protocolShareBps: nat, hostFeeBps: Option<nat>)
    requires 0 < price <= U128MAX && rate <= MAX_FEE_RATE
    ensures var quote := QuoteSwapOnBin(amountIn, reserves, price, swapForY, rate, protocolShareBps, hostFeeBps);
            var trade := TradeOnBin(amountIn, if swapForY then reserves.amountY
                                    else reserves.amountX, price, swapForY, rate);
            quote.Ok? <==>
            && trade.Ok?
            && var protocol, t := FloorDiv(trade.value.fee * protocolShareBps, 10_000), trade.value;
            && protocol <= U64MAX
            && (hostFeeBps.Some? ==> FloorDiv(protocol * hostFeeBps.value, 10_000) <= protocol)
            && t.fee <= t.amountInWithFees
            && (if swapForY then reserves.amountX else reserves.amountY) + t.amountInWithFees - t.fee <= U64MAX
  {
    hide TradeOnBin, ShareOf, FloorDiv;
    var stock := MaxOut(reserves, swapForY);
    TradeSound(amountIn, stock, price, swapForY, rate);
    var trade := TradeOnBin(amountIn, stock, price, swapForY, rate);
    if trade.Ok? {
      ShareValue(trade.value.fee, protocolShareBps);
      if hostFeeBps.Some? {
        ShareValue(FloorDiv(trade.value.fee * protocolShareBps, 10_000), hostFeeBps.value);
      }
    }
  }

  lemma ShareValue(amount: nat, bps: nat)
    ensures var share := FloorDiv(amount * bps, 10_000);
            ShareOf(amount, bps) == if share > U64MAX then Err(TypeCastFailed) else Ok(share)
  {
  }

  lemma GrossAtLeastNet(net: nat, rate: nat)
    requires rate <= MAX_FEE_RATE
    ensures Gross(net, rate, true).Ok? ==> net <= Gross(net, rate, true).value
  {
  }

  lemma ValueKept(x: nat, y: nat, into: nat, out: nat, price: nat, swapForY: bool)
    requires WithinPrice(out, into, price, swapForY) && out <= if swapForY then y else x
    ensures if swapForY then BinValue(x, y, price) <= BinValue(x + into, y - out, price)
            else BinValue(x, y, price) <= BinValue(x - out, y + into, price)
  {
    Distribute(price, x, into);
    Distribute(price, x, out);
  }
}
