/** Meteora DLMM bin arithmetic: the price of a bin, amounts at a fixed price, and proportional fees. */
module DlmmMath {
  import opened Reals
  import opened Rounding
  import opened Wrappers
  import opened FixedPow

  const BASIS_POINT_MAX: nat := 10_000
  const FEE_PRECISION: nat := 1_000_000_000
  const MAX_FEE_RATE: nat := 100_000_000

  /** A decoded unsigned 64-bit field. */
  type U64 = n: nat | n <= U64MAX

  // ---- u128x128 ----

  function MulDiv(x: nat, y: nat, denominator: nat, roundUp: bool): Result<nat, Error> {
    if x > U128MAX || y > U128MAX || denominator > U128MAX then Err(MathOverflow)
    else if denominator == 0 then Err(DivideByZero)
    else
      var quotient := if roundUp then CeilDiv(x * y, denominator) else FloorDiv(x * y, denominator);
      if quotient > U128MAX then Err(MathOverflow) else Ok(quotient)
  }

  function CastU64(n: nat): Result<nat, Error> {
    if n > U64MAX then Err(TypeCastFailed) else Ok(n)
  }

  // ---- the price of a bin ----

  function BinBase(binStep: nat): nat {
    Q64 + FloorDiv(binStep * Q64, BASIS_POINT_MAX)
  }

  /** A bin's price in Q64.64, or why it has none. */
  function PriceFromID(id: int, binStep: nat): Result<nat, Error> {
    if BinBase(binStep) > U128MAX then Err(MathOverflow) else Power(BinBase(binStep), id)
  }

  predicate IsInt32(n: int) {
    MIN_INT32 <= n < 0x8000_0000
  }

  method ComputePriceFromID(id: int, binStep: nat) returns (price: Result<nat, Error>)
    requires IsInt32(id)
    ensures price == PriceFromID(id, binStep)
  {
    hide Power;
    var bps := FloorDiv(binStep * Q64, BASIS_POINT_MAX);
    var base := Q64 + bps;
    if base > U128MAX {
      return Err(MathOverflow);
    }
    price := Pow(base, id);
  }

  lemma PriceIsPositive(id: int, binStep: nat)
    ensures var price := PriceFromID(id, binStep);
            price.Ok? ==> 0 < price.value <= U128MAX
  {
    hide Product;
    var base := BinBase(binStep);
    if PriceFromID(id, binStep).Ok? {
      NormalisedBelowOne(base);
      ZerothAndFirst(Normalised(base));
      if id != 0 {
        var n := if id < 0 then -id else id;
        ProductAntitone(Normalised(base), 0, n);
        var product := Product(Normalised(base), n);
        FloorAdjoint(1, U128MAX, product);
        FloorAdjoint(U128MAX + 1, U128MAX, product);
        MulMono(1, product, U128MAX + 1);
      }
    }
  }

  /** The price never falls from one bin to the next, for every bin step, wherever both are defined. */
  lemma PriceNeverFalls(id: int, next: int, binStep: nat)
    requires id <= next && PriceFromID(id, binStep).Ok? && PriceFromID(next, binStep).Ok?
    ensures PriceFromID(id, binStep).value <= PriceFromID(next, binStep).value
  {
    hide Power;
    PowerMonotone(BinBase(binStep), id, next);
  }

  /** What a bin's price is, for the base that one and the bin step in basis points round down to and the inverse 2^128
      rounds down to. Below bin zero it is the power of the inverse, too low by less than one unit a bin; above, what
      the opposite bin's power goes into 2^128. It is missing exactly when the base leaves a u128, the bin is too far or
      the power has vanished. */
  lemma BinPriceTracks(id: int, binStep: nat, base: nat, inverse: nat)
    requires base >= Q64 && (base - Q64) * 10_000 <= binStep * Q64 < (base - Q64) * 10_000 + 10_000
    requires inverse * base <= U128MAX < (inverse + 1) * base
    ensures var n, price := if id < 0 then -id else id, PriceFromID(id, binStep);
            && (price.Ok? <==> base <= U128MAX && (id == 0 || (n < 0x80000 && Product(inverse, n) > 0)))
            && (price.Ok? ==>
                  && (id == 0 ==> price.value == Q64)
                  && (id < 0 ==> PowerBelow(price.value, inverse as real / UNIT, n))
                  && (id > 0 ==> PowerBelow(Product(inverse, n), inverse as real / UNIT, n)
                                 && price.value * Product(inverse, n) <= U128MAX
                                 && U128MAX < (price.value + 1) * Product(inverse, n)))
  {
    FloorUnique(base - Q64, binStep * Q64, BASIS_POINT_MAX);
    FloorUnique(inverse, U128MAX, base);
    NormalisedBelowOne(base);
    var n: nat := if id < 0 then -id else id;
    if 0 < n < MAX_EXPONENTIAL {
      ProductErrorBound(inverse, n);
    }
    hide Product, RealPow;
    if PriceFromID(id, binStep).Ok? && id > 0 {
      Distribute(Product(inverse, n), PriceFromID(id, binStep).value, 1);
    }
  }

  /** r stands for x^n in Q64.64, too low by at most n - 1 units. */
  ghost predicate PowerBelow(r: nat, x: real, n: nat) {
    UNIT * RealPow(x, n) - (n - 1) as real <= r as real <= UNIT * RealPow(x, n)
  }

  // ---- amounts at a price ----

  /** The input that buys a bin's whole output, rounded up. */
  function AmountInFromAmountOut(amountOut: nat, price: nat, swapForY: bool): Result<nat, Error> {
    var amount :- if swapForY then MulDiv(amountOut, Q64, price, true) else MulDiv(amountOut, price, Q64, true);
    CastU64(amount)
  }

  function AmountOutFromAmountIn(amountIn: nat, price: nat, swapForY: bool): Result<nat, Error> {
    var amount :- if swapForY then MulDiv(price, amountIn, Q64, false) else MulDiv(amountIn, Q64, price, false);
    CastU64(amount)
  }

  /** The exact amounts behind the checked ones. */
  function Cost(amountOut: nat, price: nat, swapForY: bool): nat
    requires price > 0
  {
    if swapForY then CeilDiv(amountOut * Q64, price) else CeilDiv(amountOut * price, Q64)
  }

  function Proceeds(amountIn: nat, price: nat, swapForY: bool): nat
    requires price > 0
  {
    if swapForY then FloorDiv(price * amountIn, Q64) else FloorDiv(amountIn * Q64, price)
  }

  /** An input buys at least `out` exactly when it covers the rounded-up cost of `out`. */
  lemma BinAdjoint(amountIn: nat, out: nat, price: nat, swapForY: bool)
    requires price > 0
    ensures out <= Proceeds(amountIn, price, swapForY) <==> Cost(out, price, swapForY) <= amountIn
  {
    if swapForY {
      FloorAdjoint(out, price * amountIn, Q64);
      CeilAdjoint(out * Q64, price, amountIn);
    } else {
      FloorAdjoint(out, amountIn * Q64, price);
      CeilAdjoint(out * price, Q64, amountIn);
    }
  }

  lemma CheckedAmounts(amount: U64, price: nat, swapForY: bool)
    requires 0 < price <= U128MAX
    ensures var cost := AmountInFromAmountOut(amount, price, swapForY);
            && (cost.Ok? <==> Cost(amount, price, swapForY) <= U64MAX)
            && (cost.Ok? ==> cost.value == Cost(amount, price, swapForY))
    ensures var out := AmountOutFromAmountIn(amount, price, swapForY);
            && (out.Ok? <==> Proceeds(amount, price, swapForY) <= U64MAX)
            && (out.Ok? ==> out.value == Proceeds(amount, price, swapForY))
  {
    hide CeilDiv, FloorDiv;
  }

  // ---- fees ----

  /** The fee on top of a net amount. */
  function ComputeFee(amount: nat, rate: nat): Result<nat, Error> {
    if rate >= FEE_PRECISION then Err(MathOverflow)
    else
      var denominator := FEE_PRECISION - rate;
      CastU64(FloorDiv(amount * rate + (denominator - 1), denominator))
  }

  /** The fee out of an amount that includes it. */
  function ComputeFeeFromAmount(amount: nat, rate: nat): Result<nat, Error> {
    CastU64(FloorDiv(amount * rate + (FEE_PRECISION - 1), FEE_PRECISION))
  }

  /** Adding d-1 and truncating is the ceiling. */
  lemma CeilingByOffset(n: nat, d: nat)
    requires d > 0
    ensures FloorDiv(n + (d - 1), d) == CeilDiv(n, d)
  {
    FloorUnique(CeilDiv(n, d), n + (d - 1), d);
  }

  lemma FeeTaken(gross: U64, rate: nat)
    requires rate <= MAX_FEE_RATE
    ensures var taken := ComputeFeeFromAmount(gross, rate);
            && taken.Ok? && taken.value <= gross
            && gross - taken.value == FloorDiv(gross * (FEE_PRECISION - rate), FEE_PRECISION)
  {
    CeilingByOffset(gross * rate, FEE_PRECISION);
    FeeOffGross(gross, rate, FEE_PRECISION);
  }

  lemma FeeOnTop(net: nat, rate: nat)
    requires rate <= MAX_FEE_RATE
    ensures ComputeFee(net, rate) == CastU64(CeilDiv(net * rate, FEE_PRECISION - rate))
  {
    CeilingByOffset(net * rate, FEE_PRECISION - rate);
  }

  /** Taking the fee out of an included amount always succeeds and never exceeds it; paying for `net` with
      its own fee on top fits exactly when `net` is within what the fee leaves. */
  lemma FeesAdjoint(gross: U64, net: nat, rate: nat)
    requires rate <= MAX_FEE_RATE
    ensures var taken := ComputeFeeFromAmount(gross, rate);
            && taken.Ok? && taken.value <= gross
            && (net <= gross - taken.value <==>
                ComputeFee(net, rate).Ok? && net + ComputeFee(net, rate).value <= gross)
  {
    hide ComputeFee, ComputeFeeFromAmount, FloorDiv, CeilDiv;
    FeeTaken(gross, rate);
    FeeOnTop(net, rate);
    FeeAdjoint(net, gross, rate, FEE_PRECISION);
  }

  lemma NetNeverFalls(a: U64, b: U64, rate: nat)
    requires rate <= MAX_FEE_RATE && a <= b
    ensures var x, y := ComputeFeeFromAmount(a, rate), ComputeFeeFromAmount(b, rate);
            x.Ok? && y.Ok? && x.value <= a && y.value <= b && a - x.value <= b - y.value
  {
    hide ComputeFeeFromAmount, FloorDiv;
    FeeTaken(a, rate);
    FeeTaken(b, rate);
    NetMono(a, b, rate, FEE_PRECISION);
  }

  /** One more unit adds at most one to what the fee leaves. */
  lemma NetStep(x: nat, rate: nat)
    requires rate <= MAX_FEE_RATE
    ensures FloorDiv((x + 1) * (FEE_PRECISION - rate), FEE_PRECISION)
         <= FloorDiv(x * (FEE_PRECISION - rate), FEE_PRECISION) + 1
  {
    hide FloorDiv;
    var keep := FEE_PRECISION - rate;
    var net := FloorDiv(x * keep, FEE_PRECISION);
    FloorAdjoint(net + 1, x * keep, FEE_PRECISION);
    FloorAdjoint(net + 2, (x + 1) * keep, FEE_PRECISION);
  }

  // ---- spot price ----

  /** `paid` for `spent` is no better than a bin price. */
  predicate WithinPrice(paid: nat, spent: nat, price: nat, swapForY: bool) {
    if swapForY then paid * Q64 <= spent * price else paid * price <= spent * Q64
  }

  /** Any bin trade whose input covers the cost of its output is within the bin's price. */
  lemma CostIsWithinPrice(paid: nat, spent: nat, price: nat, swapForY: bool)
    requires price > 0
    ensures Cost(paid, price, swapForY) <= spent <==> WithinPrice(paid, spent, price, swapForY)
  {
    if swapForY {
      CeilAdjoint(paid * Q64, price, spent);
    } else {
      CeilAdjoint(paid * price, Q64, spent);
    }
  }

  lemma WithinPriceAdds(paid1: nat, spent1: nat, paid2: nat, spent2: nat, price: nat, swapForY: bool)
    requires WithinPrice(paid1, spent1, price, swapForY) && WithinPrice(paid2, spent2, price, swapForY)
    ensures WithinPrice(paid1 + paid2, spent1 + spent2, price, swapForY)
  {
    Distribute(price, paid1, paid2);
    Distribute(price, spent1, spent2);
  }

  /** A worse price, less paid, more spent. */
  lemma WithinPriceWorsens(paid: nat, spent: nat, price: nat, start: nat, swapForY: bool)
    requires WithinPrice(paid, spent, price, swapForY)
    requires if swapForY then price <= start else start <= price
    ensures WithinPrice(paid, spent, start, swapForY)
  {
    if swapForY {
      MulMono(price, start, spent);
    } else {
      MulMono(start, price, paid);
    }
  }

  /** Bins on opposite sides of zero price each other's reciprocal, rounded down. */
  lemma OppositeBinsAreReciprocal(id: int, binStep: nat)
    requires id > 0 && PriceFromID(id, binStep).Ok?
    ensures PriceFromID(0, binStep) == Ok(Q64)
    ensures var opposite := PriceFromID(-id, binStep);
            opposite.Ok? && PriceFromID(id, binStep).value == FloorDiv(U128MAX, opposite.value)
  {
    hide Product;
  }
}
