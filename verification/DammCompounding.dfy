/** DAMM v2's compounding (constant-product) quotes. Exact-out is the exact adjoint of exact-in: it
    names the least input that is enough, on both sides of the fee and in both directions. */
module DammCompounding {
  import opened Rounding
  import opened Wrappers
  import opened MachineIntegers

  const FEE_DENOMINATOR: nat := 1_000_000_000
  const MAX_BASIS_POINT: nat := 10_000

  datatype Error = DivideByZero | MathOverflow | TypeCastFailed | InsufficientLiquidity

  datatype Direction = AtoB | BtoA

  datatype Settings = Settings(
    feeNumerator: nat,
    feeOnInput: bool,
    hasReferral: bool,
    protocolFeePercent: nat,
    compoundingFeeBps: nat,
    referralFeePercent: nat
  ) {
    /** Shares of at most the whole, and a fee below the whole. */
    predicate InRange() {
      && feeNumerator < FEE_DENOMINATOR
      && protocolFeePercent <= 100 && compoundingFeeBps <= MAX_BASIS_POINT && referralFeePercent <= 100
    }
  }

  datatype SplitFees = SplitFees(claiming: nat, compounding: nat, protocol: nat, referral: nat) {
    function Sum(): nat {
      claiming + compounding + protocol + referral
    }
  }

  datatype SwapResult = SwapResult(includedFeeInput: nat, excludedFeeInput: nat, output: nat, fees: SplitFees)

  /** x * y / denominator out of u64s, cast back to a u64. */
  function MulDivU64(x: nat, y: nat, denominator: nat, roundUp: bool): Result<nat, Error> {
    if denominator == 0 then Err(DivideByZero)
    else if x * y > U128MAX then Err(MathOverflow)
    else
      var quotient := if roundUp then CeilDiv(x * y, denominator) else FloorDiv(x * y, denominator);
      if quotient > U64MAX then Err(TypeCastFailed) else Ok(quotient)
  }

  // ---- fees ----

  /** What is left of an amount that includes the fee, and the fee. */
  function ExcludedFeeAmount(feeNumerator: nat, included: nat): Result<(nat, nat), Error> {
    var fee :- MulDivU64(included, feeNumerator, FEE_DENOMINATOR, true);
    Ok((Uint64(included - fee), fee))
  }

  /** The amount that leaves `excluded` after the fee, and the fee. */
  function IncludedFeeAmount(feeNumerator: nat, excluded: nat): Result<(nat, nat), Error> {
    var included :- MulDivU64(excluded, FEE_DENOMINATOR, Uint64(FEE_DENOMINATOR - feeNumerator), true);
    Ok((included, Uint64(included - excluded)))
  }

  function SplitTradingFees(fee: nat, c: Settings): Result<SplitFees, Error> {
    var protocol :- MulDivU64(fee, c.protocolFeePercent, 100, false);
    var trading := Uint64(fee - protocol);
    var compounding :- if c.compoundingFeeBps > 0 then MulDivU64(trading, c.compoundingFeeBps, MAX_BASIS_POINT, false)
                       else Ok(0);
    var claiming := Uint64(trading - compounding);
    var referral :- if c.hasReferral then MulDivU64(protocol, c.referralFeePercent, 100, false) else Ok(0);
    Ok(SplitFees(claiming, compounding, Uint64(protocol - referral), referral))
  }

  // ---- the curve ----

  function ReserveIn(tokenA: nat, tokenB: nat, dir: Direction): nat {
    if dir == AtoB then tokenA else tokenB
  }

  function ReserveOut(tokenA: nat, tokenB: nat, dir: Direction): nat {
    if dir == AtoB then tokenB else tokenA
  }

  /** The constant-product output, rounded down. */
  function OutputForInput(tokenA: nat, tokenB: nat, amountIn: nat, dir: Direction): Result<nat, Error> {
    MulDivU64(ReserveOut(tokenA, tokenB, dir), amountIn, Uint64(ReserveIn(tokenA, tokenB, dir) + amountIn), false)
  }

  /** The constant-product input, rounded up. */
  function InputForOutput(tokenA: nat, tokenB: nat, amountOut: nat, dir: Direction): Result<nat, Error> {
    if amountOut >= ReserveOut(tokenA, tokenB, dir) then Err(InsufficientLiquidity)
    else MulDivU64(ReserveIn(tokenA, tokenB, dir), amountOut, ReserveOut(tokenA, tokenB, dir) - amountOut, true)
  }

  // ---- the quotes ----

  function QuoteExactIn(tokenA: nat, tokenB: nat, amountIn: nat, dir: Direction, c: Settings)
    : Result<SwapResult, Error>
  {
    if c.feeOnInput then
      var (net, fee) :- ExcludedFeeAmount(c.feeNumerator, amountIn);
      var split :- SplitTradingFees(fee, c);
      var output :- OutputForInput(tokenA, tokenB, net, dir);
      Ok(SwapResult(amountIn, net, output, split))
    else
      var gross :- OutputForInput(tokenA, tokenB, amountIn, dir);
      var (net, fee) :- ExcludedFeeAmount(c.feeNumerator, gross);
      var split :- SplitTradingFees(fee, c);
      Ok(SwapResult(amountIn, amountIn, net, split))
  }

  function QuoteExactOut(tokenA: nat, tokenB: nat, amountOut: nat, dir: Direction, c: Settings)
    : Result<SwapResult, Error>
  {
    if c.feeOnInput then
      var net :- InputForOutput(tokenA, tokenB, amountOut, dir);
      var (included, fee) :- IncludedFeeAmount(c.feeNumerator, net);
      var split :- SplitTradingFees(fee, c);
      Ok(SwapResult(included, net, amountOut, split))
    else
      var (gross, fee) :- IncludedFeeAmount(c.feeNumerator, amountOut);
      var input :- InputForOutput(tokenA, tokenB, gross, dir);
      var split :- SplitTradingFees(fee, c);
      Ok(SwapResult(input, input, amountOut, split))
  }

  // ---- fees: conservation and adjunction ----

  lemma ProductFits(x: nat, y: nat)
    requires x <= U64MAX && y <= U64MAX
    ensures x * y <= U128MAX
  {
    MulMono(x, U64MAX, y);
    MulMono(y, U64MAX, U64MAX);
  }

  /** A share of at most the whole. */
  lemma ShareFits(amount: nat, share: nat, whole: nat)
    requires amount <= U64MAX && share <= whole <= U64MAX && whole > 0
    ensures var part := MulDivU64(amount, share, whole, false);
            part.Ok? && part.value <= amount
  {
    ProductFits(amount, share);
    MulMono(share, whole, amount);
    FloorMono(amount * share, amount * whole, whole);
    FloorUnique(amount, amount * whole, whole);
  }

  lemma Wrapped(n: int) returns (k: int)
    ensures Uint64(n) == n + k * Q64
  {
    k := -(n / Q64);
  }

  lemma Unwrapped(n: nat, k: int)
    requires n < Q64
    ensures Uint64(n + k * Q64) == n
  {
  }

  /** Whatever is split off, wrapped differences and what they leave out add up again. */
  lemma PartsAddUp(fee: nat, protocol: nat, compounding: nat, referral: nat)
    requires fee < Q64
    ensures Uint64(Uint64(Uint64(fee - protocol) - compounding) + compounding
                   + Uint64(protocol - referral) + referral) == fee
  {
    hide Uint64;
    var i := Wrapped(fee - protocol);
    var j := Wrapped(Uint64(fee - protocol) - compounding);
    var k := Wrapped(protocol - referral);
    Unwrapped(fee, i + j + k);
  }

  /** Splitting a fee neither creates nor loses any of it, modulo 2^64, whatever the shares. */
  lemma SplitConservesModulo(fee: nat, c: Settings)
    requires fee <= U64MAX
    ensures var split := SplitTradingFees(fee, c);
            split.Ok? ==> Uint64(split.value.Sum()) == fee
  {
    hide MulDivU64, Uint64;
    var split := SplitTradingFees(fee, c);
    if split.Ok? {
      var protocol := MulDivU64(fee, c.protocolFeePercent, 100, false).value;
      PartsAddUp(fee, protocol, split.value.compounding, split.value.referral);
    }
  }

  /** With no share above the whole the split cannot fail and adds up exactly. */
  lemma SplitConserves(fee: nat, c: Settings)
    requires fee <= U64MAX && c.InRange()
    ensures var split := SplitTradingFees(fee, c);
            split.Ok? && split.value.Sum() == fee
  {
    hide MulDivU64;
    ShareFits(fee, c.protocolFeePercent, 100);
    var protocol := MulDivU64(fee, c.protocolFeePercent, 100, false).value;
    ShareFits(fee - protocol, c.compoundingFeeBps, MAX_BASIS_POINT);
    ShareFits(protocol, c.referralFeePercent, 100);
  }

  /** Each share of a split is the greatest its percentage covers: the protocol's of the fee, referral included, the
      referrer's of the protocol's, and the compounding one of the rest. */
  lemma SplitShares(fee: nat, c: Settings, k: nat)
    requires fee <= U64MAX && c.InRange()
    ensures SplitTradingFees(fee, c).Ok?
    ensures var s := SplitTradingFees(fee, c).value;
            var protocol := s.protocol + s.referral;
            && protocol <= fee
            && (k <= protocol <==> k * 100 <= fee * c.protocolFeePercent)
            && (k <= s.compounding <==> k * 10_000 <= (fee - protocol) * c.compoundingFeeBps)
            && (k <= s.referral <==> k * 100 <= protocol * (if c.hasReferral then c.referralFeePercent else 0))
  {
    hide MulDivU64;
    ShareFits(fee, c.protocolFeePercent, 100);
    var protocol := MulDivU64(fee, c.protocolFeePercent, 100, false).value;
    ShareFits(fee - protocol, c.compoundingFeeBps, MAX_BASIS_POINT);
    ShareFits(protocol, c.referralFeePercent, 100);
    ShareIsFloor(fee, c.protocolFeePercent, 100, k);
    ShareIsFloor(fee - protocol, c.compoundingFeeBps, 10_000, k);
    ShareIsFloor(protocol, c.referralFeePercent, 100, k);
    if c.compoundingFeeBps == 0 {
      ShareIsFloor(fee - protocol, 0, 10_000, 1);
    }
  }

  lemma ShareIsFloor(amount: nat, share: nat, whole: nat, k: nat)
    requires whole > 0
    ensures var part := MulDivU64(amount, share, whole, false);
            part.Ok? ==> (k <= part.value <==> k * whole <= amount * share)
  {
    FloorAdjoint(k, amount * share, whole);
  }

  /** What a fee leaves: never an error, and `want` is left exactly when the grossed-up amount fits. */
  lemma ExcludedAdjoint(feeNumerator: nat, included: nat, want: nat)
    requires feeNumerator < FEE_DENOMINATOR && included <= U64MAX
    ensures var left := ExcludedFeeAmount(feeNumerator, included);
            && left.Ok? && left.value.0 + left.value.1 == included
            && (want <= left.value.0 <==> CeilDiv(want * FEE_DENOMINATOR, FEE_DENOMINATOR - feeNumerator) <= included)
  {
    FeeOffGross(included, feeNumerator, FEE_DENOMINATOR);
    ProductFits(included, feeNumerator);
    FloorAdjoint(want, included * (FEE_DENOMINATOR - feeNumerator), FEE_DENOMINATOR);
    CeilAdjoint(want * FEE_DENOMINATOR, FEE_DENOMINATOR - feeNumerator, included);
  }

  /** What a net amount is grossed up to is no less than it. */
  lemma GrossAtLeastNet(net: nat, gross: nat, keep: nat, denominator: nat)
    requires 0 < keep <= denominator && net * denominator <= gross * keep
    ensures net <= gross
  {
    MulMono(keep, denominator, net);
    OrderedBy(net, gross, keep);
  }

  /** Grossing up is the ceiling, or a cast error when that exceeds a u64. */
  lemma IncludedIsCeiling(feeNumerator: nat, excluded: nat)
    requires feeNumerator < FEE_DENOMINATOR && excluded <= U64MAX
    ensures var gross := CeilDiv(excluded * FEE_DENOMINATOR, FEE_DENOMINATOR - feeNumerator);
            var included := IncludedFeeAmount(feeNumerator, excluded);
            && excluded <= gross
            && (included.Ok? <==> gross <= U64MAX)
            && (included.Ok? ==> included.value.0 == gross && included.value.1 == gross - excluded)
  {
    hide CeilDiv, Uint64;
    var keep := FEE_DENOMINATOR - feeNumerator;
    ProductFits(excluded, FEE_DENOMINATOR);
    Uint64Exact(keep);
    var gross := CeilDiv(excluded * FEE_DENOMINATOR, keep);
    GrossAtLeastNet(excluded, gross, keep, FEE_DENOMINATOR);
    if gross <= U64MAX {
      Uint64Exact(gross - excluded);
    }
  }

  // ---- the curve: adjunction ----

  /** The curve never pays more than the reserve. */
  lemma CurveWithinReserve(reserveIn: nat, reserveOut: nat, amountIn: nat)
    requires 0 < reserveIn
    ensures FloorDiv(reserveOut * amountIn, reserveIn + amountIn) <= reserveOut
    ensures 0 < reserveOut ==> FloorDiv(reserveOut * amountIn, reserveIn + amountIn) < reserveOut
  {
    FloorAdjoint(reserveOut + 1, reserveOut * amountIn, reserveIn + amountIn);
    FloorAdjoint(reserveOut, reserveOut * amountIn, reserveIn + amountIn);
    Distribute(reserveOut, reserveIn, amountIn);
    if reserveOut > 0 {
      Positive(reserveOut, reserveIn);
    }
  }

  /** The curve pays at least `want` exactly when the input covers its rounded-up cost. */
  lemma CurveAdjoint(reserveIn: nat, reserveOut: nat, amountIn: nat, want: nat)
    requires 0 < reserveIn && want < reserveOut
    ensures want <= FloorDiv(reserveOut * amountIn, reserveIn + amountIn)
       <==> CeilDiv(reserveIn * want, reserveOut - want) <= amountIn
  {
    hide FloorDiv, CeilDiv;
    calc <==> {
      want <= FloorDiv(reserveOut * amountIn, reserveIn + amountIn);
    <==> { FloorAdjoint(want, reserveOut * amountIn, reserveIn + amountIn); }
      want * (reserveIn + amountIn) <= reserveOut * amountIn;
    <==> { CurveBalance(reserveIn, reserveOut, amountIn, want); }
      reserveIn * want <= amountIn * (reserveOut - want);
    <==> { CeilAdjoint(reserveIn * want, reserveOut - want, amountIn); }
      CeilDiv(reserveIn * want, reserveOut - want) <= amountIn;
    }
  }

  lemma CurveBalance(reserveIn: nat, reserveOut: nat, amountIn: nat, want: nat)
    requires want <= reserveOut
    ensures want * (reserveIn + amountIn) <= reserveOut * amountIn
       <==> reserveIn * want <= amountIn * (reserveOut - want)
  {
    Distribute(want, reserveIn, amountIn);
    Distribute(amountIn, reserveOut, want);
  }

  /** The most the curve pays for an input without giving the whole reserve away. */
  function Payout(reserveIn: nat, reserveOut: nat, amountIn: nat): (paid: nat)
    requires reserveOut > 0
    ensures paid < reserveOut
  {
    if reserveIn == 0 then reserveOut - 1
    else
      CurveWithinReserve(reserveIn, reserveOut, amountIn);
      FloorDiv(reserveOut * amountIn, reserveIn + amountIn)
  }

  /** Both reserves and an amount are u64s. */
  predicate Amounts(tokenA: nat, tokenB: nat, amount: nat) {
    tokenA <= U64MAX && tokenB <= U64MAX && amount <= U64MAX
  }

  /** Before fees, exact-out names the least curve input that pays `want`, whatever the reserves. */
  lemma CurveCostAdjoint(tokenA: nat, tokenB: nat, n: nat, want: nat, dir: Direction)
    requires Amounts(tokenA, tokenB, n) && ReserveOut(tokenA, tokenB, dir) > 0
    ensures var input := InputForOutput(tokenA, tokenB, want, dir);
            input.Ok? && input.value <= n <==>
            want <= Payout(ReserveIn(tokenA, tokenB, dir), ReserveOut(tokenA, tokenB, dir), n)
  {
    hide FloorDiv, CeilDiv;
    var a, b := ReserveIn(tokenA, tokenB, dir), ReserveOut(tokenA, tokenB, dir);
    if want < b {
      ProductFits(a, want);
      if a == 0 {
        CeilAdjoint(0, b - want, 0);
      } else {
        CurveAdjoint(a, b, n, want);
      }
    }
  }

  lemma UnwrappedPays(a: nat, b: nat, n: nat)
    requires 0 < a && 0 < b <= U64MAX && a + n <= U64MAX
    ensures MulDivU64(b, n, Uint64(a + n), false) == Ok(Payout(a, b, n))
  {
    hide FloorDiv;
    Uint64Exact(a + n);
    ProductFits(b, n);
  }

  lemma WrappedPays(a: nat, b: nat, n: nat)
    requires a <= U64MAX && n <= U64MAX && a + n > U64MAX
    ensures var paid := MulDivU64(b, n, Uint64(a + n), false);
            paid.Ok? ==> paid.value >= b
  {
    hide FloorDiv, Uint64;
    WrappedSum(a, n);
    var sum := Uint64(a + n);
    if sum > 0 {
      MulMono(sum, n, b);
      FloorAdjoint(b, b * n, sum);
    }
  }

  lemma EmptyPays(b: nat, n: nat)
    requires n <= U64MAX
    ensures var paid := MulDivU64(b, n, Uint64(n), false);
            paid.Ok? ==> paid.value == b
  {
    hide FloorDiv;
    Uint64Exact(n);
    if n > 0 {
      FloorUnique(b, b * n, n);
    }
  }

  lemma NothingPays(n: nat, denominator: nat)
    ensures var paid := MulDivU64(0, n, denominator, false);
            paid.Ok? ==> paid.value == 0
  {
    hide FloorDiv;
    if denominator > 0 {
      FloorUnique(0, 0, denominator);
    }
  }

  /** What exact-in computes on the curve: the curve's payout while the reserve sum fits, an error or at least
      the whole reserve otherwise, and the whole reserve of a pool with nothing on the input side. */
  lemma CurveOutput(tokenA: nat, tokenB: nat, n: nat, dir: Direction)
    requires Amounts(tokenA, tokenB, n)
    ensures var a, b := ReserveIn(tokenA, tokenB, dir), ReserveOut(tokenA, tokenB, dir);
            var paid := OutputForInput(tokenA, tokenB, n, dir);
            && (b > 0 && a > 0 && a + n <= U64MAX ==> paid == Ok(Payout(a, b, n)))
            && (b > 0 && !(a > 0 && a + n <= U64MAX) && paid.Ok? ==> paid.value >= b)
            && (b == 0 && paid.Ok? ==> paid.value == 0)
            && (a == 0 && paid.Ok? ==> paid.value == b)
  {
    hide MulDivU64, Payout, Uint64;
    var a, b := ReserveIn(tokenA, tokenB, dir), ReserveOut(tokenA, tokenB, dir);
    if b == 0 {
      NothingPays(n, Uint64(a + n));
    } else if a == 0 {
      EmptyPays(b, n);
    } else if a + n <= U64MAX {
      UnwrappedPays(a, b, n);
    } else {
      WrappedPays(a, b, n);
    }
  }

  lemma WrappedSum(a: nat, n: nat)
    requires a <= U64MAX && n <= U64MAX && a + n > U64MAX
    ensures Uint64(a + n) == a + n - Q64 < n
  {
  }

  // ---- the quotes ----

  function AfterFee(c: Settings, amount: nat): (net: nat)
    requires c.InRange()
    ensures net <= amount
  {
    FeeOffGross(amount, c.feeNumerator, FEE_DENOMINATOR);
    FloorDiv(amount * (FEE_DENOMINATOR - c.feeNumerator), FEE_DENOMINATOR)
  }

  /** The part of an input that reaches the curve. */
  function CurveInput(c: Settings, amountIn: nat): (net: nat)
    requires c.InRange()
    ensures net <= amountIn
  {
    if c.feeOnInput then AfterFee(c, amountIn) else amountIn
  }

  /** The part of the curve's payout that reaches the trader. */
  function TraderOutput(c: Settings, paid: nat): (net: nat)
    requires c.InRange()
    ensures net <= paid
  {
    if c.feeOnInput then paid else AfterFee(c, paid)
  }

  lemma ExcludedIsAfterFee(c: Settings, amount: nat)
    requires c.InRange() && amount <= U64MAX
    ensures ExcludedFeeAmount(c.feeNumerator, amount) == Ok((AfterFee(c, amount), amount - AfterFee(c, amount)))
  {
    hide FloorDiv, CeilDiv, Uint64;
    FeeOffGross(amount, c.feeNumerator, FEE_DENOMINATOR);
    ProductFits(amount, c.feeNumerator);
    Uint64Exact(AfterFee(c, amount));
  }

  lemma TraderOutputMono(c: Settings, x: nat, y: nat)
    requires c.InRange() && x <= y
    ensures TraderOutput(c, x) <= TraderOutput(c, y)
  {
    NetMono(x, y, c.feeNumerator, FEE_DENOMINATOR);
  }

  /** Exact-in fails only with the curve, and where the fee goes: on the input it is what the curve does not
      see, on the output what the trader does not get. */
  lemma ExactInParts(tokenA: nat, tokenB: nat, amountIn: nat, dir: Direction, c: Settings)
    requires Amounts(tokenA, tokenB, amountIn) && c.InRange()
    ensures var quote, paid := QuoteExactIn(tokenA, tokenB, amountIn, dir, c),
                               OutputForInput(tokenA, tokenB, CurveInput(c, amountIn), dir);
            && (quote.Ok? <==> paid.Ok?)
            && (quote.Ok? ==>
                  && quote.value.includedFeeInput == amountIn && quote.value.excludedFeeInput == CurveInput(c, amountIn)
                  && quote.value.output == TraderOutput(c, paid.value)
                  && quote.value.fees.Sum() == (amountIn - CurveInput(c, amountIn)) + (paid.value - quote.value.output))
  {
    hide OutputForInput, ExcludedFeeAmount, SplitTradingFees, AfterFee;
    var paid := OutputForInput(tokenA, tokenB, CurveInput(c, amountIn), dir);
    OutputIsU64(tokenA, tokenB, CurveInput(c, amountIn), dir);
    if c.feeOnInput {
      ExcludedIsAfterFee(c, amountIn);
      SplitConserves(amountIn - CurveInput(c, amountIn), c);
    } else if paid.Ok? {
      ExcludedIsAfterFee(c, paid.value);
      SplitConserves(paid.value - AfterFee(c, paid.value), c);
    }
  }

  lemma OutputIsU64(tokenA: nat, tokenB: nat, n: nat, dir: Direction)
    ensures OutputForInput(tokenA, tokenB, n, dir).Ok? ==> OutputForInput(tokenA, tokenB, n, dir).value <= U64MAX
    ensures InputForOutput(tokenA, tokenB, n, dir).Ok? ==> InputForOutput(tokenA, tokenB, n, dir).value <= U64MAX
  {
    hide FloorDiv, CeilDiv, Uint64;
  }

  /** The curve output exact-out asks for: enough to leave `want` after the fee. */
  function CurveWant(c: Settings, want: nat): nat
    requires c.InRange()
  {
    if c.feeOnInput then want else CeilDiv(want * FEE_DENOMINATOR, FEE_DENOMINATOR - c.feeNumerator)
  }

  lemma WantAdjoint(c: Settings, want: nat, paid: nat)
    requires c.InRange()
    ensures CurveWant(c, want) <= paid <==> want <= TraderOutput(c, paid)
  {
    FloorAdjoint(want, paid * (FEE_DENOMINATOR - c.feeNumerator), FEE_DENOMINATOR);
    CeilAdjoint(want * FEE_DENOMINATOR, FEE_DENOMINATOR - c.feeNumerator, paid);
  }

  /** A quote asks for no more than an amount. */
  predicate Within(cost: Result<SwapResult, Error>, amount: nat) {
    cost.Ok? && cost.value.includedFeeInput <= amount
  }

  /** Exact-out fits within an amount exactly when the curve input it needs fits within what reaches the curve. */
  lemma ExactOutParts(tokenA: nat, tokenB: nat, amountIn: nat, want: nat, dir: Direction, c: Settings)
    requires Amounts(tokenA, tokenB, amountIn) && want <= U64MAX && c.InRange()
    ensures var cost, input := QuoteExactOut(tokenA, tokenB, want, dir, c),
                               InputForOutput(tokenA, tokenB, CurveWant(c, want), dir);
            && (Within(cost, amountIn) <==>
                CurveWant(c, want) <= U64MAX && input.Ok? && input.value <= CurveInput(c, amountIn))
            && (cost.Ok? ==> cost.value.output == want && cost.value.includedFeeInput <= U64MAX)
  {
    hide InputForOutput, ExcludedFeeAmount, IncludedFeeAmount, SplitTradingFees, CeilDiv, AfterFee;
    OutputIsU64(tokenA, tokenB, CurveWant(c, want), dir);
    if c.feeOnInput {
      var input := InputForOutput(tokenA, tokenB, want, dir);
      if input.Ok? {
        ExcludedIsAfterFee(c, amountIn);
        ExcludedAdjoint(c.feeNumerator, amountIn, input.value);
        IncludedIsCeiling(c.feeNumerator, input.value);
        var included := IncludedFeeAmount(c.feeNumerator, input.value);
        if included.Ok? {
          SplitConserves(included.value.1, c);
        }
      }
    } else {
      IncludedIsCeiling(c.feeNumerator, want);
      var included := IncludedFeeAmount(c.feeNumerator, want);
      if included.Ok? {
        SplitConserves(included.value.1, c);
      }
    }
  }

  // ---- exact-out and exact-in ----

  /** The greatest output exact-out sells for an amount. */
  function Best(tokenA: nat, tokenB: nat, amountIn: nat, dir: Direction, c: Settings): nat
    requires c.InRange() && ReserveOut(tokenA, tokenB, dir) > 0
  {
    TraderOutput(c, Payout(ReserveIn(tokenA, tokenB, dir), ReserveOut(tokenA, tokenB, dir), CurveInput(c, amountIn)))
  }

  /** Exact-out sells `want` for at most `amountIn` exactly when `want` is no more than the best output: on both
      fee sides, in both directions and for all reserves, errors included. */
  lemma ExactOutIsLeast(tokenA: nat, tokenB: nat, amountIn: nat, want: nat, dir: Direction, c: Settings)
    requires Amounts(tokenA, tokenB, amountIn) && want <= U64MAX && c.InRange()
    ensures var cost := QuoteExactOut(tokenA, tokenB, want, dir, c);
            Within(cost, amountIn) <==>
            ReserveOut(tokenA, tokenB, dir) > 0 && want <= Best(tokenA, tokenB, amountIn, dir, c)
  {
    hide QuoteExactOut, Payout, CurveInput, CurveWant, TraderOutput;
    ExactOutParts(tokenA, tokenB, amountIn, want, dir, c);
    var a, b, n := ReserveIn(tokenA, tokenB, dir), ReserveOut(tokenA, tokenB, dir), CurveInput(c, amountIn);
    if b > 0 {
      CurveCostAdjoint(tokenA, tokenB, n, CurveWant(c, want), dir);
      WantAdjoint(c, want, Payout(a, b, n));
    }
  }

  /** Exact-in never pays less than the best output, and exactly that while the reserve sum does not wrap. */
  lemma ExactInPaysBest(tokenA: nat, tokenB: nat, amountIn: nat, dir: Direction, c: Settings)
    requires Amounts(tokenA, tokenB, amountIn) && c.InRange() && ReserveOut(tokenA, tokenB, dir) > 0
    ensures var quote, best, a := QuoteExactIn(tokenA, tokenB, amountIn, dir, c),
                                  Best(tokenA, tokenB, amountIn, dir, c), ReserveIn(tokenA, tokenB, dir);
            && (quote.Ok? ==> best <= quote.value.output)
            && (a > 0 && a + CurveInput(c, amountIn) <= U64MAX ==> quote.Ok? && quote.value.output == best)
            && (c.feeOnInput && quote.Ok? && quote.value.output == best ==>
                  a > 0 && a + CurveInput(c, amountIn) <= U64MAX)
  {
    hide QuoteExactIn, OutputForInput, Payout, CurveInput, AfterFee;
    var a, b, n := ReserveIn(tokenA, tokenB, dir), ReserveOut(tokenA, tokenB, dir), CurveInput(c, amountIn);
    ExactInParts(tokenA, tokenB, amountIn, dir, c);
    CurveOutput(tokenA, tokenB, n, dir);
    var paid := OutputForInput(tokenA, tokenB, n, dir);
    if paid.Ok? {
      TraderOutputMono(c, Payout(a, b, n), paid.value);
    }
  }

  // ---- the two directions ----

  /** Selling B is selling A with the tokens exchanged. */
  lemma DirectionsMirror(tokenA: nat, tokenB: nat, amount: nat, c: Settings)
    ensures QuoteExactIn(tokenA, tokenB, amount, BtoA, c) == QuoteExactIn(tokenB, tokenA, amount, AtoB, c)
    ensures QuoteExactOut(tokenA, tokenB, amount, BtoA, c) == QuoteExactOut(tokenB, tokenA, amount, AtoB, c)
  {
    hide MulDivU64, ExcludedFeeAmount, IncludedFeeAmount, SplitTradingFees;
  }

  /** What a fee of so many billionths leaves of an amount covers k. */
  predicate FeeLeaves(k: nat, amount: nat, feeNumerator: nat) {
    k * 1_000_000_000 <= amount * (1_000_000_000 - feeNumerator)
  }

  /** The curve pays p for n: what is left of the reserve bought, times the reserve paid into, is no less than
      before. */
  predicate CurvePays(p: nat, n: nat, reserveIn: nat, reserveOut: nat) {
    p * (reserveIn + n) <= reserveOut * n
  }

  /** Exact-in by its arithmetic alone: A buys from B's reserve and B from A's. What a fee leaves of an amount, and what
      the curve pays for the part of the input it sees, are the greatest amounts their products cover. */
  lemma ExactInLaw(tokenA: nat, tokenB: nat, amountIn: nat, dir: Direction, c: Settings, k: nat, p: nat)
    requires Amounts(tokenA, tokenB, amountIn) && c.InRange()
    ensures var reserveIn, reserveOut := if dir == AtoB then tokenA else tokenB, if dir == AtoB then tokenB else tokenA;
            var quote := QuoteExactIn(tokenA, tokenB, amountIn, dir, c);
            quote.Ok? && reserveIn > 0 && reserveOut > 0 && reserveIn + quote.value.excludedFeeInput <= U64MAX ==>
              var q := quote.value;
              if c.feeOnInput then
                && (k <= q.excludedFeeInput <==> FeeLeaves(k, amountIn, c.feeNumerator))
                && (p <= q.output <==> CurvePays(p, q.excludedFeeInput, reserveIn, reserveOut))
              else
                var gross := q.output + q.fees.Sum();
                && q.excludedFeeInput == amountIn
                && (p <= gross <==> CurvePays(p, amountIn, reserveIn, reserveOut))
                && (k <= q.output <==> FeeLeaves(k, gross, c.feeNumerator))
  {
    hide QuoteExactIn, OutputForInput, AfterFee, Payout, FeeLeaves, CurvePays;
    var reserveIn, reserveOut := if dir == AtoB then tokenA else tokenB, if dir == AtoB then tokenB else tokenA;
    var n := CurveInput(c, amountIn);
    ExactInParts(tokenA, tokenB, amountIn, dir, c);
    CurveOutput(tokenA, tokenB, n, dir);
    if reserveIn > 0 && reserveOut > 0 {
      PayoutIsGreatest(reserveIn, reserveOut, n, p);
      AfterFeeAdjoint(c, amountIn, k);
      AfterFeeAdjoint(c, Payout(reserveIn, reserveOut, n), k);
    }
  }

  lemma PayoutIsGreatest(reserveIn: nat, reserveOut: nat, n: nat, p: nat)
    requires reserveIn > 0 && reserveOut > 0
    ensures p <= Payout(reserveIn, reserveOut, n) <==> CurvePays(p, n, reserveIn, reserveOut)
  {
    FloorAdjoint(p, reserveOut * n, reserveIn + n);
  }

  lemma AfterFeeAdjoint(c: Settings, amount: nat, k: nat)
    requires c.InRange()
    ensures k <= AfterFee(c, amount) <==> FeeLeaves(k, amount, c.feeNumerator)
  {
    FloorAdjoint(k, amount * (FEE_DENOMINATOR - c.feeNumerator), FEE_DENOMINATOR);
  }

  /** What exact-out reports: the wanted output, and a fee that is what the curve does not see of the input or the
      trader does not get of the curve's payout. */
  lemma ExactOutFees(tokenA: nat, tokenB: nat, want: nat, dir: Direction, c: Settings)
    requires want <= U64MAX && c.InRange()
    ensures var cost := QuoteExactOut(tokenA, tokenB, want, dir, c);
            cost.Ok? ==>
              var q := cost.value;
              && q.output == want
              && if c.feeOnInput then q.excludedFeeInput + q.fees.Sum() == q.includedFeeInput
                 else q.excludedFeeInput == q.includedFeeInput && q.output + q.fees.Sum() == CurveWant(c, want)
  {
    hide InputForOutput, IncludedFeeAmount, SplitTradingFees, CeilDiv;
    OutputIsU64(tokenA, tokenB, want, dir);
    var taxed := if c.feeOnInput then InputForOutput(tokenA, tokenB, want, dir) else Ok(want);
    if taxed.Ok? {
      IncludedIsCeiling(c.feeNumerator, taxed.value);
      var included := IncludedFeeAmount(c.feeNumerator, taxed.value);
      if included.Ok? {
        SplitConserves(included.value.1, c);
      }
    }
  }

  /** Exact-out by its arithmetic alone: an amount is enough exactly when the curve, which sees what the fee leaves of
      it, pays `gross` for it out of a reserve that holds more; and `gross` is `want` itself or, with the fee on the
      output, the least amount of which the fee leaves `want`. */
  lemma ExactOutLaw(tokenA: nat, tokenB: nat, amountIn: nat, want: nat, dir: Direction, c: Settings, k: nat, g: nat)
    requires Amounts(tokenA, tokenB, amountIn) && want <= U64MAX && c.InRange()
    ensures var reserveIn, reserveOut := if dir == AtoB then tokenA else tokenB, if dir == AtoB then tokenB else tokenA;
            var n, gross := CurveInput(c, amountIn), CurveWant(c, want);
            && (Within(QuoteExactOut(tokenA, tokenB, want, dir, c), amountIn) <==>
                gross < reserveOut && CurvePays(gross, n, reserveIn, reserveOut))
            && (if c.feeOnInput then gross == want && (k <= n <==> FeeLeaves(k, amountIn, c.feeNumerator))
                else n == amountIn && (gross <= g <==> FeeLeaves(want, g, c.feeNumerator)))
  {
    hide QuoteExactOut, FloorDiv, CeilDiv, AfterFee, TraderOutput;
    var reserveIn, reserveOut := if dir == AtoB then tokenA else tokenB, if dir == AtoB then tokenB else tokenA;
    var n, gross := CurveInput(c, amountIn), CurveWant(c, want);
    ExactOutIsLeast(tokenA, tokenB, amountIn, want, dir, c);
    AfterFeeAdjoint(c, amountIn, k);
    CeilAdjoint(want * 1_000_000_000, 1_000_000_000 - c.feeNumerator, g);
    if reserveOut > 0 {
      WantAdjoint(c, want, Payout(reserveIn, reserveOut, n));
      PayoutReaches(reserveIn, reserveOut, n, gross);
    }
  }

  lemma PayoutReaches(reserveIn: nat, reserveOut: nat, n: nat, gross: nat)
    requires reserveOut > 0
    ensures gross <= Payout(reserveIn, reserveOut, n) <==>
            gross < reserveOut && CurvePays(gross, n, reserveIn, reserveOut)
  {
    hide FloorDiv;
    if reserveIn == 0 {
      if gross < reserveOut {
        MulMono(gross, reserveOut, n);
      }
    } else {
      CurveWithinReserve(reserveIn, reserveOut, n);
      FloorAdjoint(gross, reserveOut * n, reserveIn + n);
    }
  }

  /** The two quotes are adjoint at an amount: exact-in succeeds, and exact-out sells an output for at most the
      amount exactly when exact-in pays at least that output for it. */
  ghost predicate Adjoint(tokenA: nat, tokenB: nat, amountIn: nat, dir: Direction, c: Settings) {
    var quote := QuoteExactIn(tokenA, tokenB, amountIn, dir, c);
    && quote.Ok?
    && forall want: nat :: want <= U64MAX ==> AdjointAt(tokenA, tokenB, amountIn, want, dir, c)
  }

  predicate AdjointAt(tokenA: nat, tokenB: nat, amountIn: nat, want: nat, dir: Direction, c: Settings) {
    var quote, cost := QuoteExactIn(tokenA, tokenB, amountIn, dir, c), QuoteExactOut(tokenA, tokenB, want, dir, c);
    quote.Ok? && (want <= quote.value.output <==> Within(cost, amountIn))
  }

  /** Exactly when exact-out is the adjoint of exact-in: the output reserve is not empty and exact-in pays what
      the unwrapped curve would, after the fee. */
  lemma AdjointIff(tokenA: nat, tokenB: nat, amountIn: nat, dir: Direction, c: Settings)
    requires Amounts(tokenA, tokenB, amountIn) && c.InRange()
    ensures var quote := QuoteExactIn(tokenA, tokenB, amountIn, dir, c);
            var exact := quote.Ok? && ReserveOut(tokenA, tokenB, dir) > 0
                         && quote.value.output == Best(tokenA, tokenB, amountIn, dir, c);
            Adjoint(tokenA, tokenB, amountIn, dir, c) <==> exact
  {
    hide QuoteExactIn, QuoteExactOut, Best, OutputForInput;
    var quote := QuoteExactIn(tokenA, tokenB, amountIn, dir, c);
    ExactInParts(tokenA, tokenB, amountIn, dir, c);
    OutputIsU64(tokenA, tokenB, CurveInput(c, amountIn), dir);
    forall want: nat | want <= U64MAX
      ensures var cost := QuoteExactOut(tokenA, tokenB, want, dir, c);
              Within(cost, amountIn) <==>
              ReserveOut(tokenA, tokenB, dir) > 0 && want <= Best(tokenA, tokenB, amountIn, dir, c)
    {
      ExactOutIsLeast(tokenA, tokenB, amountIn, want, dir, c);
    }
    if quote.Ok? && Adjoint(tokenA, tokenB, amountIn, dir, c) {
      assert AdjointAt(tokenA, tokenB, amountIn, 0, dir, c);
      assert AdjointAt(tokenA, tokenB, amountIn, quote.value.output, dir, c);
      ExactInPaysBest(tokenA, tokenB, amountIn, dir, c);
    }
  }

  /** With the fee on the input that is exactly when neither reserve is empty and the reserve sum fits a u64; with
      the fee on the output it also holds where the fee swallows what the wrapped curve overpays. */
  lemma ExactOutAdjoint(tokenA: nat, tokenB: nat, amountIn: nat, dir: Direction, c: Settings)
    requires Amounts(tokenA, tokenB, amountIn) && c.InRange()
    ensures var a, b := ReserveIn(tokenA, tokenB, dir), ReserveOut(tokenA, tokenB, dir);
            var fits := a > 0 && b > 0 && a + CurveInput(c, amountIn) <= U64MAX;
            && (fits ==> Adjoint(tokenA, tokenB, amountIn, dir, c))
            && (c.feeOnInput ==> (Adjoint(tokenA, tokenB, amountIn, dir, c) <==> fits))
  {
    hide QuoteExactIn, Best, Adjoint, CurveInput;
    AdjointIff(tokenA, tokenB, amountIn, dir, c);
    if ReserveOut(tokenA, tokenB, dir) > 0 {
      ExactInPaysBest(tokenA, tokenB, amountIn, dir, c);
    }
  }

  const NO_FEE: Settings := Settings(0, true, false, 0, 0, 0)

  lemma QuotesPastWrap()
    ensures QuoteExactIn(U64MAX, 1, 2, AtoB, NO_FEE) == Ok(SwapResult(2, 2, 2, SplitFees(0, 0, 0, 0)))
    ensures QuoteExactOut(U64MAX, 1, 2, AtoB, NO_FEE) == Err(InsufficientLiquidity)
  {
  }

  lemma QuotesOverEmpty()
    ensures QuoteExactIn(0, 5, 1, AtoB, NO_FEE) == Ok(SwapResult(1, 1, 5, SplitFees(0, 0, 0, 0)))
    ensures QuoteExactOut(0, 5, 5, AtoB, NO_FEE) == Err(InsufficientLiquidity)
  {
  }

  /** A failing pair past a wrapped sum: exact-in pays 2 for 2 out of a reserve of 1, which exact-out sells to no
      one; and one over an empty input reserve, where exact-in gives the whole output reserve away. */
  lemma WrappedOrEmptyBreaksAdjunction()
    ensures NO_FEE.InRange()
    ensures QuoteExactIn(U64MAX, 1, 2, AtoB, NO_FEE) == Ok(SwapResult(2, 2, 2, SplitFees(0, 0, 0, 0)))
    ensures QuoteExactOut(U64MAX, 1, 2, AtoB, NO_FEE) == Err(InsufficientLiquidity)
    ensures QuoteExactIn(0, 5, 1, AtoB, NO_FEE) == Ok(SwapResult(1, 1, 5, SplitFees(0, 0, 0, 0)))
    ensures QuoteExactOut(0, 5, 5, AtoB, NO_FEE) == Err(InsufficientLiquidity)
    ensures !Adjoint(U64MAX, 1, 2, AtoB, NO_FEE) && !Adjoint(0, 5, 1, AtoB, NO_FEE)
  {
    hide Adjoint, QuoteExactIn, QuoteExactOut;
    QuotesPastWrap();
    QuotesOverEmpty();
    ExactOutAdjoint(U64MAX, 1, 2, AtoB, NO_FEE);
    ExactOutAdjoint(0, 5, 1, AtoB, NO_FEE);
  }

  /** Half of everything, off the output. */
  const HALF_FEE: Settings := Settings(500_000_000, false, false, 0, 0, 0)

  /** Where the fee swallows the difference: the wrapped curve gives the whole reserve of 1 away, and after a fee of
      half on the output nothing of it is left, as on the unwrapped curve. */
  lemma FeeCanSwallowTheWrap()
    ensures Adjoint(U64MAX, 1, U64MAX, AtoB, HALF_FEE) && U64MAX + CurveInput(HALF_FEE, U64MAX) > U64MAX
  {
    hide Adjoint;
    AdjointIff(U64MAX, 1, U64MAX, AtoB, HALF_FEE);
    CurveWithinReserve(U64MAX, 1, U64MAX);
    WrappedSum(U64MAX, U64MAX);
    FloorUnique(1, U64MAX, U64MAX - 1);
    FloorUnique(0, 500_000_000, FEE_DENOMINATOR);
    FloorUnique(0, 0, FEE_DENOMINATOR);
  }

  /** Round trips, for all reserves: where both succeed, what exact-out asks for pays at least the output it was
      asked for; and what exact-in pays is sold back for no more than its input exactly when the two are adjoint. */
  lemma QuotesRoundTrip(tokenA: nat, tokenB: nat, amount: nat, dir: Direction, c: Settings)
    requires Amounts(tokenA, tokenB, amount) && c.InRange()
    ensures var cost := QuoteExactOut(tokenA, tokenB, amount, dir, c);
            cost.Ok? ==>
              var quote := QuoteExactIn(tokenA, tokenB, cost.value.includedFeeInput, dir, c);
              quote.Ok? ==> amount <= quote.value.output
    ensures var quote := QuoteExactIn(tokenA, tokenB, amount, dir, c);
            quote.Ok? ==>
              var cost := QuoteExactOut(tokenA, tokenB, quote.value.output, dir, c);
              Within(cost, amount) <==> Adjoint(tokenA, tokenB, amount, dir, c)
  {
    hide QuoteExactIn, QuoteExactOut, Best, Adjoint, OutputForInput;
    var cost, quote := QuoteExactOut(tokenA, tokenB, amount, dir, c), QuoteExactIn(tokenA, tokenB, amount, dir, c);
    if cost.Ok? {
      ExactOutParts(tokenA, tokenB, amount, amount, dir, c);
      ExactOutIsLeast(tokenA, tokenB, cost.value.includedFeeInput, amount, dir, c);
      ExactInPaysBest(tokenA, tokenB, cost.value.includedFeeInput, dir, c);
    }
    if quote.Ok? {
      ExactInParts(tokenA, tokenB, amount, dir, c);
      OutputIsU64(tokenA, tokenB, CurveInput(c, amount), dir);
      ExactOutIsLeast(tokenA, tokenB, amount, quote.value.output, dir, c);
      AdjointIff(tokenA, tokenB, amount, dir, c);
      if ReserveOut(tokenA, tokenB, dir) > 0 {
        ExactInPaysBest(tokenA, tokenB, amount, dir, c);
      }
    }
  }

  /** A payout within the reserve that does not shrink the product of the reserves. */
  predicate KeepsProduct(reserveIn: nat, reserveOut: nat, amountIn: nat, paid: nat) {
    paid <= reserveOut && reserveIn * reserveOut <= (reserveIn + amountIn) * (reserveOut - paid)
  }

  /** The curve keeps the product exactly when the reserve sum fits or there was nothing to pay. */
  lemma CurveKeepsProduct(tokenA: nat, tokenB: nat, n: nat, dir: Direction)
    requires Amounts(tokenA, tokenB, n)
    ensures var a, b, paid := ReserveIn(tokenA, tokenB, dir), ReserveOut(tokenA, tokenB, dir),
                              OutputForInput(tokenA, tokenB, n, dir);
            paid.Ok? ==> (KeepsProduct(a, b, n, paid.value) <==> b == 0 || a + n <= U64MAX)
  {
    hide OutputForInput, FloorDiv, KeepsProduct;
    var a, b := ReserveIn(tokenA, tokenB, dir), ReserveOut(tokenA, tokenB, dir);
    CurveOutput(tokenA, tokenB, n, dir);
    var paid := OutputForInput(tokenA, tokenB, n, dir);
    if paid.Ok? {
      if a == 0 || b == 0 {
        NothingKept(a, b, n, paid.value);
      } else if a + n <= U64MAX {
        FloorAdjoint(paid.value, b * n, a + n);
        ProductKept(a, b, n, paid.value);
      } else {
        ProductLost(a, b, n, paid.value);
      }
    }
  }

  lemma NothingKept(a: nat, b: nat, n: nat, paid: nat)
    requires (a == 0 && paid == b) || (b == 0 && paid == 0)
    ensures KeepsProduct(a, b, n, paid)
  {
  }

  lemma ProductLost(a: nat, b: nat, n: nat, paid: nat)
    requires a > 0 && b > 0 && paid >= b
    ensures !KeepsProduct(a, b, n, paid)
  {
    Positive(a, b);
  }

  /** The fee adds up on both sides, for all reserves; and what the curve gives up stays within the reserve without
      shrinking the product of the reserves exactly when the reserve sum fits or there was nothing to pay. */
  lemma ExactInConserves(tokenA: nat, tokenB: nat, amountIn: nat, dir: Direction, c: Settings)
    requires Amounts(tokenA, tokenB, amountIn) && c.InRange()
    ensures var quote := QuoteExactIn(tokenA, tokenB, amountIn, dir, c);
            var a, b := ReserveIn(tokenA, tokenB, dir), ReserveOut(tokenA, tokenB, dir);
            quote.Ok? ==>
              var q, sum := quote.value, quote.value.fees.Sum();
              var paid := if c.feeOnInput then q.output else q.output + sum;
              && q.includedFeeInput == amountIn
              && (if c.feeOnInput then q.excludedFeeInput + sum == amountIn else q.excludedFeeInput == amountIn)
              && (KeepsProduct(a, b, q.excludedFeeInput, paid) <==> b == 0 || a + q.excludedFeeInput <= U64MAX)
  {
    hide QuoteExactIn, OutputForInput, AfterFee, KeepsProduct;
    ExactInParts(tokenA, tokenB, amountIn, dir, c);
    CurveKeepsProduct(tokenA, tokenB, CurveInput(c, amountIn), dir);
  }

  lemma ProductKept(a: nat, b: nat, n: nat, paid: nat)
    requires paid <= b && paid * (a + n) <= b * n
    ensures KeepsProduct(a, b, n, paid)
  {
    Distribute(a + n, b, paid);
    Distribute(b, a, n);
  }
}
