/** Runs over an explicit list of stops, and what an extra uninitialized stop does to a static-fee quote:
    every stop between two others costs rounding on both sides and never pays more. */
module OrcaStops {
  import opened Rounding
  import opened Wrappers
  import opened TickTables
  import opened TickMath
  import opened OrcaMath
  import opened OrcaFee
  import opened OrcaRun
  import R = RaydiumMath

  // ---- lists of stops ----

  function AfterCrossing(b: Boundary, aToB: bool): int {
    if aToB then b.tickIndex - 1 else b.tickIndex
  }

  /** Stops in the order a swap from fromTick meets them. */
  predicate Ordered(stops: seq<Boundary>, aToB: bool, fromTick: int) {
    stops != [] ==> StopFrom(fromTick, stops[0], aToB) && Ordered(stops[1..], aToB, AfterCrossing(stops[0], aToB))
  }

  /** The nearest listed stop at or beyond fromTick. */
  function NextStop(stops: seq<Boundary>, fromTick: int, aToB: bool): Option<Boundary> {
    if stops == [] then None
    else if StopFrom(fromTick, stops[0], aToB) then Some(stops[0])
    else NextStop(stops[1..], fromTick, aToB)
  }

  /** The provider that searches a list. */
  function ListProvider(stops: seq<Boundary>): TickProvider {
    (fromTick: int, aToB: bool) => NextStop(stops, fromTick, aToB)
  }

  lemma {:induction false} NextStopHonours(stops: seq<Boundary>, fromTick: int, aToB: bool)
    ensures NextStop(stops, fromTick, aToB).Some? ==> StopFrom(fromTick, NextStop(stops, fromTick, aToB).value, aToB)
  {
    if stops != [] && !StopFrom(fromTick, stops[0], aToB) {
      NextStopHonours(stops[1..], fromTick, aToB);
    }
  }

  lemma ListProviderHonours(stops: seq<Boundary>, aToB: bool)
    ensures Honours(ListProvider(stops), aToB)
  {
    forall t: int ensures NextStop(stops, t, aToB).Some? ==> StopFrom(t, NextStop(stops, t, aToB).value, aToB) {
      NextStopHonours(stops, t, aToB);
    }
  }

  /** A swap over a list: one walk per stop. */
  function ListRun(s: State, stops: seq<Boundary>, aToB: bool): Result<State, Error>
    requires Positioned(s, aToB) && (s.remaining > 0 ==> Ordered(stops, aToB, s.tick))
    decreases |stops|
  {
    hide Positioned, Approaching, StepToBoundary, OrcaPrice;
    if s.remaining == 0 || s.sqrtPrice == Limit(aToB) || stops == [] then Ok(s)
    else
      AtBoundary(s, stops[0], aToB);
      var next :- StepToBoundary(s, stops[0], aToB);
      StepToBoundarySound(s, stops[0], aToB);
      ListRun(next, stops[1..], aToB)
  }

  lemma {:induction false} ListRunSound(s: State, stops: seq<Boundary>, aToB: bool)
    requires Positioned(s, aToB) && (s.remaining > 0 ==> Ordered(stops, aToB, s.tick))
    ensures var end := ListRun(s, stops, aToB);
            end.Ok? ==> s.out <= end.value.out <= U64MAX && end.value.remaining <= s.remaining
    decreases |stops|
  {
    hide StepToBoundary, OrcaPrice, R.WithinSpot, FeePositioned;
    if s.remaining > 0 && s.sqrtPrice != Limit(aToB) && stops != [] {
      AtBoundary(s, stops[0], aToB);
      var next := StepToBoundary(s, stops[0], aToB);
      StepToBoundarySound(s, stops[0], aToB);
      if next.Ok? {
        ListRunSound(next.value, stops[1..], aToB);
      }
    }
  }

  /** Stops already crossed are never met again. */
  lemma {:induction false} CrossedAreSkipped(passed: seq<Boundary>, left: seq<Boundary>, fromTick: int, aToB: bool)
    requires forall k :: 0 <= k < |passed| ==> !StopFrom(fromTick, passed[k], aToB)
    ensures NextStop(passed + left, fromTick, aToB) == NextStop(left, fromTick, aToB)
  {
    if passed == [] {
      assert passed + left == left;
    } else {
      assert (passed + left)[0] == passed[0];
      assert (passed + left)[1..] == passed[1..] + left;
      CrossedAreSkipped(passed[1..], left, fromTick, aToB);
    }
  }

  /** The program's loop over a searched list is the run over the list itself. */
  lemma {:induction false} RunIsListRun(s: State, passed: seq<Boundary>, left: seq<Boundary>, aToB: bool)
    requires Positioned(s, aToB) && (s.remaining > 0 ==> Ordered(left, aToB, s.tick))
    requires s.remaining > 0 ==> forall k :: 0 <= k < |passed| ==> !StopFrom(s.tick, passed[k], aToB)
    requires Honours(ListProvider(passed + left), aToB)
    ensures Run(s, aToB, ListProvider(passed + left)) == ListRun(s, left, aToB)
    decreases |left|
  {
    hide StepToBoundary, OrcaPrice, R.WithinSpot, FeePositioned;
    if s.remaining > 0 && s.sqrtPrice != Limit(aToB) {
      CrossedAreSkipped(passed, left, s.tick, aToB);
      if left != [] {
        var b := left[0];
        AtBoundary(s, b, aToB);
        var next := StepToBoundary(s, b, aToB);
        StepToBoundarySound(s, b, aToB);
        if next.Ok? {
          assert (passed + [b]) + left[1..] == passed + left;
          RunIsListRun(next.value, passed + [b], left[1..], aToB);
        }
      }
    }
  }

  // ---- one step of a static-fee pool ----

  ghost predicate StaticAt(s: State, rate: nat) {
    s.fee == StaticFee(rate) && rate < FEE_RATE_MUL
  }

  /** Standing on a stop after paying `spent` and receiving `gained`. */
  function AtStop(s: State, b: Boundary, spent: nat, gained: nat, aToB: bool): Result<State, Error>
    requires spent <= s.remaining
  {
    if s.out + gained > U64MAX then Err(AmountOverflow)
    else
      var liquidity :- if b.initialized then CrossLiquidity(s.liquidity, b.liquidityNet, aToB) else Ok(s.liquidity);
      Ok(State(s.remaining - spent, s.out + gained, OrcaPrice(b.tickIndex), liquidity, AfterCrossing(b, aToB), s.fee))
  }

  function Cost(s: State, b: Boundary, aToB: bool): nat
    requires Approaching(s, b, aToB)
  {
    TargetIsTick(b.tickIndex, aToB);
    R.InputDelta(s.sqrtPrice, OrcaPrice(b.tickIndex), s.liquidity, aToB)
  }

  function Gain(s: State, b: Boundary, aToB: bool): nat
    requires Approaching(s, b, aToB)
  {
    TargetIsTick(b.tickIndex, aToB);
    R.OutputDelta(s.sqrtPrice, OrcaPrice(b.tickIndex), s.liquidity, aToB)
  }

  /** Under a flat rate a covered stop takes one step, which draws the exact cost and its fee. */
  lemma StaticReaches(s: State, b: Boundary, aToB: bool, rate: nat)
    requires Approaching(s, b, aToB) && StaticAt(s, rate)
    requires Cost(s, b, aToB) <= R.NetInput(s.remaining, rate, true)
    ensures Cost(s, b, aToB) + R.GrossUpFee(Cost(s, b, aToB), rate) <= s.remaining
    ensures StepToBoundary(s, b, aToB)
         == AtStop(s, b, Cost(s, b, aToB) + R.GrossUpFee(Cost(s, b, aToB), rate), Gain(s, b, aToB), aToB)
  {
    hide OrcaPrice, OrcaTickAt, ComputeSwapStep, R.ComputeSwapStep, R.InputDelta,
      R.OutputDelta, R.GrossUpFee, R.NetInput;
    TargetIsTick(b.tickIndex, aToB);
    var price := OrcaPrice(b.tickIndex);
    StepsAgree(s.remaining, rate, s.liquidity, s.sqrtPrice, price, aToB);
    R.StepReaches(s.sqrtPrice, price, s.liquidity, s.remaining, rate, aToB, true);
  }

  /** An uncovered stop takes one step too, which spends everything and stops short. */
  lemma StaticStops(s: State, b: Boundary, aToB: bool, rate: nat) returns (next: nat)
    requires Approaching(s, b, aToB) && StaticAt(s, rate)
    requires R.NetInput(s.remaining, rate, true) < Cost(s, b, aToB)
    ensures s.liquidity > 0 && next > 0
    ensures next == R.NextSqrtPrice(s.sqrtPrice, s.liquidity, R.NetInput(s.remaining, rate, true), aToB)
    ensures R.Ahead(s.sqrtPrice, next, aToB) && R.Ahead(next, OrcaPrice(b.tickIndex), aToB)
    ensures R.InputDelta(s.sqrtPrice, next, s.liquidity, aToB) <= R.NetInput(s.remaining, rate, true)
    ensures var gain := R.OutputDelta(s.sqrtPrice, next, s.liquidity, aToB);
            var walked := StepToBoundary(s, b, aToB);
            && (walked.Ok? <==> s.out + gain <= U64MAX)
            && (walked.Ok? ==>
                  walked.value == s.(remaining := 0, out := s.out + gain, sqrtPrice := next, tick := walked.value.tick))
  {
    hide OrcaPrice, OrcaTickAt, ComputeSwapStep, R.ComputeSwapStep, R.InputDelta,
      R.OutputDelta, R.NextSqrtPrice, R.GrossUpFee, R.NetInput;
    TargetIsTick(b.tickIndex, aToB);
    var price := OrcaPrice(b.tickIndex);
    StepsAgree(s.remaining, rate, s.liquidity, s.sqrtPrice, price, aToB);
    R.StepStops(s.sqrtPrice, price, s.liquidity, s.remaining, rate, aToB, true);
    next := R.NextSqrtPrice(s.sqrtPrice, s.liquidity, R.NetInput(s.remaining, rate, true), aToB);
  }

  // ---- splitting a move ----

  /** Splitting a move never makes it cheaper. */
  lemma CostSplits(p: nat, q: nat, r: nat, liquidity: nat, aToB: bool)
    requires p > 0 && q > 0 && r > 0 && R.Ahead(p, q, aToB) && R.Ahead(q, r, aToB)
    ensures R.InputDelta(p, r, liquidity, aToB)
         <= R.InputDelta(p, q, liquidity, aToB) + R.InputDelta(q, r, liquidity, aToB)
  {
    hide R.InputDelta;
    var k, l := R.InputDelta(p, q, liquidity, aToB), R.InputDelta(q, r, liquidity, aToB);
    R.InputAdjoint(p, q, liquidity, aToB, k);
    R.InputAdjoint(q, r, liquidity, aToB, l);
    R.InputAdjoint(p, r, liquidity, aToB, k + l);
    if aToB {
      HyperbolaIn(p, q, r, liquidity * Q64, k, l);
    } else {
      Distribute(liquidity, q - p, r - q);
    }
  }

  /** Splitting a move never pays more. */
  lemma GainSplits(p: nat, q: nat, r: nat, liquidity: nat, aToB: bool)
    requires p > 0 && q > 0 && r > 0 && R.Ahead(p, q, aToB) && R.Ahead(q, r, aToB)
    ensures R.OutputDelta(p, q, liquidity, aToB) + R.OutputDelta(q, r, liquidity, aToB)
         <= R.OutputDelta(p, r, liquidity, aToB)
  {
    hide R.OutputDelta;
    var k, l := R.OutputDelta(p, q, liquidity, aToB), R.OutputDelta(q, r, liquidity, aToB);
    R.OutputAdjoint(p, q, liquidity, aToB, k);
    R.OutputAdjoint(q, r, liquidity, aToB, l);
    R.OutputAdjoint(p, r, liquidity, aToB, k + l);
    if aToB {
      Distribute(liquidity, p - q, q - r);
    } else {
      HyperbolaOut(p, q, r, liquidity * Q64, k, l);
    }
  }

  lemma HyperbolaIn(p: nat, q: nat, r: nat, n: nat, k: nat, l: nat)
    requires 0 < r <= q <= p
    requires n * (p - q) <= k * (q * p) && n * (q - r) <= l * (r * q)
    ensures n * (p - r) <= (k + l) * (r * p)
  {
    Telescope(n, p, q, r);
    Swap(q, p, r);
    Swap(r, q, p);
    Combine(n * (p - q), n * (q - r), n * (p - r), q * p, r * q, r * p, p, q, r, k, l);
  }

  lemma HyperbolaOut(p: nat, q: nat, r: nat, n: nat, k: nat, l: nat)
    requires 0 < p <= q <= r
    requires k * (p * q) <= n * (q - p) && l * (q * r) <= n * (r - q)
    ensures (k + l) * (p * r) <= n * (r - p)
  {
    Telescope(n, r, q, p);
    Swap(p, q, r);
    Swap(q, r, p);
    Combine(n * (q - p), n * (r - q), n * (r - p), p * q, q * r, p * r, p, q, r, k, l);
  }

  /** n(p-q)/(pq) and n(q-r)/(qr) add up to n(p-r)/(pr), without the fractions. */
  lemma Telescope(n: nat, p: nat, q: nat, r: nat)
    requires r <= q <= p
    ensures n * (p - q) * r + n * (q - r) * p == n * (p - r) * q
    ensures n * (q - r) * p + n * (p - q) * r == n * (p - r) * q
  {
    Gaps(p, q, r);
    MulAssoc(n, p - q, r);
    MulAssoc(n, q - r, p);
    MulAssoc(n, p - r, q);
    Distribute(n, (p - q) * r, (q - r) * p);
  }

  lemma Gaps(p: nat, q: nat, r: nat)
    requires r <= q <= p
    ensures (p - q) * r + (q - r) * p == (p - r) * q
  {
    Distribute(r, p, q);
    Distribute(p, q, r);
    Distribute(q, p, r);
  }

  /** Exchanging the last two of three factors, and the first with the last. */
  lemma Swap(a: nat, b: nat, c: nat)
    ensures a * b * c == a * c * b == c * b * a == b * c * a == c * a * b
  {
  }

  /** Two bounds on rectangles at q combine into one on the outer rectangle. */
  lemma Combine(x: nat, y: nat, z: nat, u: nat, v: nat, w: nat, p: nat, q: nat, r: nat, k: nat, l: nat)
    requires q > 0 && x * r + y * p == z * q
    requires u * r == w * q && v * p == w * q
    ensures x <= k * u && y <= l * v ==> z <= (k + l) * w
    ensures k * u <= x && l * v <= y ==> (k + l) * w <= z
  {
    Rescale(x, k, u, r, w, q);
    Rescale(y, l, v, p, w, q);
    CancelSum(x * r, y * p, z, k * w, l * w, q);
    Distribute(w, k, l);
  }

  lemma Rescale(x: nat, k: nat, u: nat, r: nat, w: nat, q: nat)
    requires u * r == w * q
    ensures x <= k * u ==> x * r <= k * w * q
    ensures k * u <= x ==> k * w * q <= x * r
  {
    MulAssoc(k, u, r);
    MulAssoc(k, w, q);
    if x <= k * u {
      MulMono(x, k * u, r);
    }
    if k * u <= x {
      MulMono(k * u, x, r);
    }
  }

  lemma CancelSum(a: nat, b: nat, z: nat, s: nat, t: nat, q: nat)
    requires q > 0 && a + b == z * q
    ensures a <= s * q && b <= t * q ==> z <= s + t
    ensures s * q <= a && t * q <= b ==> s + t <= z
  {
    ScaledSum(z * q, s * q, t * q, z, s, t, q);
  }

  /** Ordering a scaled number and a scaled sum, their products named. */
  lemma ScaledSum(zq: nat, sq: nat, tq: nat, z: nat, s: nat, t: nat, q: nat)
    requires q > 0 && zq == z * q && sq == s * q && tq == t * q
    ensures zq <= sq + tq <==> z <= s + t
    ensures sq + tq <= zq <==> s + t <= z
  {
    Distribute(q, s, t);
    OrderedBy(z, s + t, q);
    OrderedBy(s + t, z, q);
  }

  // ---- what a part of the way costs out of one gross input ----

  /** Paying `cost` and its own fee leaves no more than the exact share would. */
  lemma SpendKeeps(remaining: nat, cost: nat, rate: nat)
    requires rate < FEE_RATE_MUL && cost + R.GrossUpFee(cost, rate) <= remaining
    ensures (remaining - cost - R.GrossUpFee(cost, rate)) * (FEE_RATE_MUL - rate) + cost * FEE_RATE_MUL
         <= remaining * (FEE_RATE_MUL - rate)
  {
    var keep := FEE_RATE_MUL - rate;
    var fee := R.GrossUpFee(cost, rate);
    Distribute(keep, remaining - cost, fee);
    Distribute(keep, remaining, cost);
    Distribute(cost, keep, rate);
  }

  /** Whatever an exact share could leave, paying once with one rounded fee leaves at least as much. */
  lemma OnceKeepsMost(remaining: nat, left: nat, cost: nat, rate: nat)
    requires rate < FEE_RATE_MUL && cost + R.GrossUpFee(cost, rate) <= remaining
    requires left * (FEE_RATE_MUL - rate) + cost * FEE_RATE_MUL <= remaining * (FEE_RATE_MUL - rate)
    ensures left <= remaining - cost - R.GrossUpFee(cost, rate)
  {
    hide CeilDiv;
    var keep: nat := FEE_RATE_MUL - rate;
    Distribute(cost, keep, rate);
    RoomForFee(remaining, left, cost, keep, cost * rate);
    CeilAdjoint(cost * rate, keep, remaining - (left + cost));
  }

  /** What the exact share leaves over covers the exact fee. */
  lemma RoomForFee(remaining: nat, left: nat, cost: nat, keep: nat, fee: nat)
    requires keep > 0 && left * keep + cost * keep + fee <= remaining * keep
    ensures left + cost <= remaining && fee <= (remaining - (left + cost)) * keep
  {
    Distribute(keep, left, cost);
    OrderedBy(left + cost, remaining, keep);
    Distribute(keep, remaining, left + cost);
  }

  // ---- the same swap over more stops ----

  /** `fine` is `coarse` with uninitialized stops inserted ahead of its last stop. */
  predicate Inserts(fine: seq<Boundary>, coarse: seq<Boundary>) {
    if coarse == [] then fine == []
    else
      && fine != []
      && ((fine[0] == coarse[0] && Inserts(fine[1..], coarse[1..]))
          || (!fine[0].initialized && Inserts(fine[1..], coarse)))
  }

  /** The run looks at no further stop: its input is spent or the limit met. */
  predicate Finished(s: State, aToB: bool) {
    s.remaining == 0 || s.sqrtPrice == Limit(aToB)
  }

  /** Between two common stops: `f` is part of the way from `c`, on the same liquidity, having paid at
      least the cost of one direct move there with its share of the fee, and been paid no more. */
  ghost predicate Behind(c: State, f: State, cost: nat, rate: nat, aToB: bool) {
    && rate < FEE_RATE_MUL
    && c.sqrtPrice > 0 && f.sqrtPrice > 0 && R.Ahead(c.sqrtPrice, f.sqrtPrice, aToB)
    && f.liquidity == c.liquidity
    && R.InputDelta(c.sqrtPrice, f.sqrtPrice, c.liquidity, aToB) <= cost
    && f.remaining * (FEE_RATE_MUL - rate) + cost * FEE_RATE_MUL <= c.remaining * (FEE_RATE_MUL - rate)
    && f.out <= c.out + R.OutputDelta(c.sqrtPrice, f.sqrtPrice, c.liquidity, aToB)
  }

  /** Moving on keeps the finer run behind. */
  lemma MoveKeepsBehind(c: State, f: State, cost: nat, rate: nat, aToB: bool, q: nat, moved: nat, rest: nat)
    requires Behind(c, f, cost, rate, aToB) && q > 0 && R.Ahead(f.sqrtPrice, q, aToB)
    requires R.InputDelta(f.sqrtPrice, q, f.liquidity, aToB) <= moved
    requires rest * (FEE_RATE_MUL - rate) + moved * FEE_RATE_MUL <= f.remaining * (FEE_RATE_MUL - rate)
    ensures Behind(c, f.(remaining := rest, sqrtPrice := q,
                   out := f.out + R.OutputDelta(f.sqrtPrice, q, f.liquidity, aToB)), cost + moved, rate, aToB)
  {
    hide R.InputDelta, R.OutputDelta;
    CostSplits(c.sqrtPrice, f.sqrtPrice, q, c.liquidity, aToB);
    GainSplits(c.sqrtPrice, f.sqrtPrice, q, c.liquidity, aToB);
  }

  /** What a share of the input could have paid for, the input with one rounded fee covers. */
  lemma ShareCovers(c: State, f: State, cost: nat, rate: nat, aToB: bool)
    requires Behind(c, f, cost, rate, aToB)
    ensures cost <= R.NetInput(c.remaining, rate, true)
    ensures c.remaining == 0 ==> cost == 0 && f.remaining == 0
  {
    FloorAdjoint(cost, c.remaining * (FEE_RATE_MUL - rate), FEE_RATE_MUL);
    if f.remaining > 0 {
      Positive(f.remaining, FEE_RATE_MUL - rate);
    }
  }

  /** A move that costs nothing pays nothing. */
  lemma FreeMovePaysNothing(p: nat, q: nat, liquidity: nat, aToB: bool)
    requires p > 0 && q > 0 && R.Ahead(p, q, aToB) && R.InputDelta(p, q, liquidity, aToB) == 0
    ensures R.OutputDelta(p, q, liquidity, aToB) == 0
  {
    hide R.InputDelta, R.OutputDelta;
    var paid := R.OutputDelta(p, q, liquidity, aToB);
    R.CurveWithinSpot(p, q, liquidity, aToB, paid, 0);
    if paid > 0 {
      Positive(p, p);
      Positive(paid, p * p);
    }
  }

  /** The coarser run, where it ends, has been paid at least as much as any run behind it. */
  lemma CoarsePaysMore(c: State, coarse: seq<Boundary>, f: State, cost: nat, rate: nat, aToB: bool)
    requires Positioned(c, aToB) && StaticAt(c, rate) && (c.remaining > 0 ==> Ordered(coarse, aToB, c.tick))
    requires Behind(c, f, cost, rate, aToB)
    requires if coarse == [] then f.sqrtPrice == c.sqrtPrice
             else InRange(coarse[0].tickIndex) && R.Ahead(f.sqrtPrice, OrcaPrice(coarse[0].tickIndex), aToB)
    ensures var end := ListRun(c, coarse, aToB);
            end.Ok? ==> f.out <= end.value.out
  {
    hide OrcaPrice, StepToBoundary, AtStop, Cost, R.InputDelta, R.OutputDelta,
      R.NextSqrtPrice, R.NetInput, R.GrossUpFee, R.WithinSpot, FeePositioned;
    R.InputDeltaSame(c.sqrtPrice, c.liquidity, aToB);
    ShareCovers(c, f, cost, rate, aToB);
    if coarse != [] {
      TargetIsTick(coarse[0].tickIndex, aToB);
    }
    if c.remaining == 0 || c.sqrtPrice == Limit(aToB) || coarse == [] {
      FreeMovePaysNothing(c.sqrtPrice, f.sqrtPrice, c.liquidity, aToB);
    } else {
      WalkPaysMore(c, coarse[0], f, cost, rate, aToB);
      AtBoundary(c, coarse[0], aToB);
      StepToBoundarySound(c, coarse[0], aToB);
      var walked := StepToBoundary(c, coarse[0], aToB);
      if walked.Ok? {
        ListRunSound(walked.value, coarse[1..], aToB);
      }
    }
  }

  lemma WalkPaysMore(c: State, b: Boundary, f: State, cost: nat, rate: nat, aToB: bool)
    requires Approaching(c, b, aToB) && StaticAt(c, rate)
    requires Behind(c, f, cost, rate, aToB) && R.Ahead(f.sqrtPrice, OrcaPrice(b.tickIndex), aToB)
    ensures var walked := StepToBoundary(c, b, aToB);
            walked.Ok? ==> f.out <= walked.value.out
  {
    hide OrcaPrice, StepToBoundary, R.InputDelta, R.OutputDelta, R.NextSqrtPrice, R.NetInput, R.GrossUpFee, Positioned;
    ShareCovers(c, f, cost, rate, aToB);
    TargetIsTick(b.tickIndex, aToB);
    if Cost(c, b, aToB) <= R.NetInput(c.remaining, rate, true) {
      StaticReaches(c, b, aToB, rate);
      R.OutputMono(c.sqrtPrice, f.sqrtPrice, OrcaPrice(b.tickIndex), c.liquidity, aToB);
    } else {
      var next := StaticStops(c, b, aToB, rate);
      R.ReachAdjoint(c.sqrtPrice, f.sqrtPrice, c.liquidity, aToB, R.NetInput(c.remaining, rate, true));
      R.OutputMono(c.sqrtPrice, f.sqrtPrice, next, c.liquidity, aToB);
    }
  }

  /** The first common stop is at or past every stop inserted before it. */
  lemma {:induction false} CommonStopAhead(fine: seq<Boundary>, coarse: seq<Boundary>, aToB: bool, fromTick: int)
    requires coarse != [] && Inserts(fine, coarse) && Ordered(fine, aToB, fromTick)
    ensures StopFrom(fromTick, coarse[0], aToB)
  {
    if fine[0] != coarse[0] {
      CommonStopAhead(fine[1..], coarse, aToB, AfterCrossing(fine[0], aToB));
    }
  }

  /** The finer run's next walk keeps it behind, and cannot fail if what it would be paid fits. */
  lemma FineWalk(c: State, f: State, b: Boundary, cost: nat, rate: nat, aToB: bool) returns (next: State, total: nat)
    requires Approaching(f, b, aToB) && StaticAt(f, rate) && Behind(c, f, cost, rate, aToB)
    ensures Behind(c, next, total, rate, aToB) && R.Ahead(next.sqrtPrice, OrcaPrice(b.tickIndex), aToB)
    ensures next.fee == f.fee
    ensures next.out <= U64MAX && (!b.initialized || Cost(f, b, aToB) > R.NetInput(f.remaining, rate, true)) ==>
              var walked := StepToBoundary(f, b, aToB);
              walked.Ok? && walked.value == next.(tick := walked.value.tick)
    ensures Cost(f, b, aToB) <= R.NetInput(f.remaining, rate, true) ==>
              && Cost(f, b, aToB) + R.GrossUpFee(Cost(f, b, aToB), rate) <= f.remaining
              && next == f.(remaining := f.remaining - Cost(f, b, aToB) - R.GrossUpFee(Cost(f, b, aToB), rate),
                         out := f.out + Gain(f, b, aToB), sqrtPrice := OrcaPrice(b.tickIndex))
              && total == cost + Cost(f, b, aToB)
    ensures Cost(f, b, aToB) > R.NetInput(f.remaining, rate, true) ==> next.remaining == 0
  {
    hide OrcaPrice, StepToBoundary, R.InputDelta, R.OutputDelta, R.NextSqrtPrice, R.GrossUpFee, Positioned;
    TargetIsTick(b.tickIndex, aToB);
    var price := OrcaPrice(b.tickIndex);
    var moved := Cost(f, b, aToB);
    var net := R.NetInput(f.remaining, rate, true);
    if moved <= net {
      StaticReaches(f, b, aToB, rate);
      SpendKeeps(f.remaining, moved, rate);
      var rest := f.remaining - moved - R.GrossUpFee(moved, rate);
      MoveKeepsBehind(c, f, cost, rate, aToB, price, moved, rest);
      next, total := f.(remaining := rest, sqrtPrice := price, out := f.out + Gain(f, b, aToB)), cost + moved;
    } else {
      var q := StaticStops(f, b, aToB, rate);
      MoveKeepsBehind(c, f, cost, rate, aToB, q, net, 0);
      var gain := R.OutputDelta(f.sqrtPrice, q, f.liquidity, aToB);
      next, total := f.(remaining := 0, sqrtPrice := q, out := f.out + gain), cost + net;
    }
  }

  /** Both runs on a common stop, crossing it: the finer one starts the next stretch behind again. */
  lemma CommonWalk(c: State, f: State, b: Boundary, cost: nat, rate: nat, aToB: bool)
    requires Approaching(c, b, aToB) && StaticAt(c, rate)
    requires Approaching(f, b, aToB) && StaticAt(f, rate) && Behind(c, f, cost, rate, aToB)
    requires Cost(f, b, aToB) <= R.NetInput(f.remaining, rate, true)
    ensures var coarse, fine := StepToBoundary(c, b, aToB), StepToBoundary(f, b, aToB);
            coarse.Ok? ==>
              && fine.Ok? && Behind(coarse.value, fine.value, 0, rate, aToB)
              && coarse.value.sqrtPrice == fine.value.sqrtPrice == OrcaPrice(b.tickIndex)
              && coarse.value.tick == fine.value.tick == AfterCrossing(b, aToB)
              && coarse.value.fee == c.fee && fine.value.fee == f.fee
  {
    hide OrcaPrice, StepToBoundary, R.InputDelta, R.OutputDelta, R.NextSqrtPrice, R.GrossUpFee, R.NetInput, Positioned;
    var next, total := FineWalk(c, f, b, cost, rate, aToB);
    ShareCovers(c, next, total, rate, aToB);
    StaticReaches(c, b, aToB, rate);
    StaticReaches(f, b, aToB, rate);
    MulMono(Cost(c, b, aToB), total, FEE_RATE_MUL);
    OnceKeepsMost(c.remaining, next.remaining, Cost(c, b, aToB), rate);
    TargetIsTick(b.tickIndex, aToB);
    var coarse := StepToBoundary(c, b, aToB);
    if coarse.Ok? {
      MulMono(next.remaining, coarse.value.remaining, FEE_RATE_MUL - rate);
      R.InputDeltaSame(OrcaPrice(b.tickIndex), coarse.value.liquidity, aToB);
    }
  }

  /** A fine run that has not reached the limit leaves the coarse one running too. */
  lemma CoarseStillRuns(c: State, f: State, cost: nat, rate: nat, aToB: bool)
    requires Positioned(c, aToB) && Positioned(f, aToB) && Behind(c, f, cost, rate, aToB)
    requires f.remaining > 0 && f.sqrtPrice != Limit(aToB)
    ensures c.remaining > 0 && c.sqrtPrice != Limit(aToB)
  {
    hide OrcaPrice, R.InputDelta, R.OutputDelta;
    ShareCovers(c, f, cost, rate, aToB);
  }

  lemma BehindAtAnyTick(c: State, f: State, tick: int, cost: nat, rate: nat, aToB: bool)
    requires Behind(c, f, cost, rate, aToB)
    ensures Behind(c, f.(tick := tick), cost, rate, aToB)
  {
  }

  lemma StopAfter(b: Boundary, next: Boundary, aToB: bool)
    requires InRange(b.tickIndex) && StopFrom(AfterCrossing(b, aToB), next, aToB)
    ensures R.Ahead(OrcaPrice(b.tickIndex), OrcaPrice(next.tickIndex), aToB)
  {
    hide OrcaPrice;
    if aToB {
      PriceOrder(next.tickIndex, b.tickIndex);
    } else {
      PriceOrder(b.tickIndex, next.tickIndex);
    }
  }

  /** The finer run walks to a stop of its own, or stops short of a common one. */
  lemma WalkAlone(c: State, coarse: seq<Boundary>, f: State, fine: seq<Boundary>, cost: nat, rate: nat, aToB: bool)
    returns (total: nat)
    requires Positioned(c, aToB) && StaticAt(c, rate) && (c.remaining > 0 ==> Ordered(coarse, aToB, c.tick))
    requires Positioned(f, aToB) && StaticAt(f, rate) && f.remaining > 0 && Ordered(fine, aToB, f.tick)
    requires Behind(c, f, cost, rate, aToB) && fine != [] && coarse != [] && InRange(coarse[0].tickIndex)
    requires Approaching(f, fine[0], aToB)
    requires if R.NetInput(f.remaining, rate, true) < Cost(f, fine[0], aToB)
             then R.Ahead(OrcaPrice(fine[0].tickIndex), OrcaPrice(coarse[0].tickIndex), aToB)
             else !fine[0].initialized && Inserts(fine[1..], coarse)
    requires ListRun(c, coarse, aToB).Ok?
    ensures var walked := StepToBoundary(f, fine[0], aToB);
            && walked.Ok? && Behind(c, walked.value, total, rate, aToB) && walked.value.fee == f.fee
            && R.Ahead(walked.value.sqrtPrice, OrcaPrice(coarse[0].tickIndex), aToB)
            && (R.NetInput(f.remaining, rate, true) < Cost(f, fine[0], aToB) ==>
                  walked.value.remaining == 0 && walked.value.out <= ListRun(c, coarse, aToB).value.out)
  {
    hide OrcaPrice, StepToBoundary, R.InputDelta, R.OutputDelta, R.NextSqrtPrice,
      R.NetInput, R.GrossUpFee, R.WithinSpot,
      FeePositioned, Behind, Cost, Gain, ListRun;
    var b := fine[0];
    var next;
    next, total := FineWalk(c, f, b, cost, rate, aToB);
    if R.NetInput(f.remaining, rate, true) >= Cost(f, b, aToB) {
      CommonStopAhead(fine[1..], coarse, aToB, AfterCrossing(b, aToB));
      StopAfter(b, coarse[0], aToB);
    }
    CoarsePaysMore(c, coarse, next, total, rate, aToB);
    ListRunSound(c, coarse, aToB);
    BehindAtAnyTick(c, next, StepToBoundary(f, b, aToB).value.tick, total, rate, aToB);
  }

  /** Extra stops never pay more: on a static-fee pool, inserting uninitialized stops keeps a run that
      succeeds succeeding, finishing if it finished, and never raises what it pays out. */
  lemma {:induction false} InsertedStopsPayLess(c: State, coarse: seq<Boundary>,
                                                f: State, fine: seq<Boundary>, cost: nat,
                                                rate: nat, aToB: bool)
    requires Positioned(c, aToB) && StaticAt(c, rate) && (c.remaining > 0 ==> Ordered(coarse, aToB, c.tick))
    requires Positioned(f, aToB) && StaticAt(f, rate) && (f.remaining > 0 ==> Ordered(fine, aToB, f.tick))
    requires Inserts(fine, coarse) && Behind(c, f, cost, rate, aToB)
    requires if coarse == [] then f.sqrtPrice == c.sqrtPrice
             else InRange(coarse[0].tickIndex) && R.Ahead(f.sqrtPrice, OrcaPrice(coarse[0].tickIndex), aToB)
    ensures var full, split := ListRun(c, coarse, aToB), ListRun(f, fine, aToB);
            full.Ok? ==>
              && split.Ok? && split.value.out <= full.value.out
              && (Finished(full.value, aToB) ==> Finished(split.value, aToB))
    decreases |fine|
  {
    hide OrcaPrice, StepToBoundary, R.InputDelta, R.OutputDelta, R.NextSqrtPrice,
      R.NetInput, R.GrossUpFee, R.WithinSpot,
      FeePositioned, Behind, Cost, Gain;
    CoarsePaysMore(c, coarse, f, cost, rate, aToB);
    ShareCovers(c, f, cost, rate, aToB);
    if f.remaining > 0 && f.sqrtPrice != Limit(aToB) && fine != [] && ListRun(c, coarse, aToB).Ok? {
      CoarseStillRuns(c, f, cost, rate, aToB);
      var b := fine[0];
      AtBoundary(f, b, aToB);
      StepToBoundarySound(f, b, aToB);
      if b == coarse[0] && Inserts(fine[1..], coarse[1..]) && Cost(f, b, aToB) <= R.NetInput(f.remaining, rate, true) {
        AtBoundary(c, b, aToB);
        StepToBoundarySound(c, b, aToB);
        CommonWalk(c, f, b, cost, rate, aToB);
        if coarse[1..] != [] {
          StopAfter(b, coarse[1], aToB);
        }
        InsertedStopsPayLess(StepToBoundary(c, b, aToB).value, coarse[1..], StepToBoundary(f, b, aToB).value, fine[1..],
                             0, rate, aToB);
      } else {
        if b != coarse[0] {
          CommonStopAhead(fine[1..], coarse, aToB, AfterCrossing(b, aToB));
          StopAfter(b, coarse[0], aToB);
        }
        var total := WalkAlone(c, coarse, f, fine, cost, rate, aToB);
        if Cost(f, b, aToB) <= R.NetInput(f.remaining, rate, true) {
          InsertedStopsPayLess(c, coarse, StepToBoundary(f, b, aToB).value, fine[1..], total, rate, aToB);
        }
      }
    }
  }

  // ---- stops past the last one ----

  /** A run that has spent its input or met the limit does not look at later stops; any other run goes on
      over them from where it stands, and is only paid more. */
  lemma {:induction false} LaterStopsPayMore(s: State, stops: seq<Boundary>, later: seq<Boundary>, aToB: bool)
    requires Positioned(s, aToB)
    requires s.remaining > 0 ==> Ordered(stops, aToB, s.tick) && Ordered(stops + later, aToB, s.tick)
    ensures var short, long := ListRun(s, stops, aToB), ListRun(s, stops + later, aToB);
            && (long.Ok? ==> short.Ok? && short.value.out <= long.value.out)
            && (short.Ok? ==>
                  && Positioned(short.value, aToB)
                  && if Finished(short.value, aToB) then long == short
                     else Ordered(later, aToB, short.value.tick) && long == ListRun(short.value, later, aToB))
    decreases |stops|
  {
    hide StepToBoundary, OrcaPrice, R.WithinSpot, FeePositioned;
    if stops == [] {
      assert stops + later == later;
      ListRunSound(s, later, aToB);
    } else if s.remaining > 0 && s.sqrtPrice != Limit(aToB) {
      assert (stops + later)[0] == stops[0];
      assert (stops + later)[1..] == stops[1..] + later;
      AtBoundary(s, stops[0], aToB);
      var next := StepToBoundary(s, stops[0], aToB);
      StepToBoundarySound(s, stops[0], aToB);
      if next.Ok? {
        LaterStopsPayMore(next.value, stops[1..], later, aToB);
      }
    }
  }

  /** What the walk to an uninitialized stop pays: for the whole way, or for as far as the input reaches. */
  function WalkGain(s: State, b: Boundary, aToB: bool, rate: nat): nat
    requires Approaching(s, b, aToB) && rate < FEE_RATE_MUL
  {
    hide OrcaPrice, R.InputDelta, R.OutputDelta, R.NextSqrtPrice, R.NetInput;
    TargetIsTick(b.tickIndex, aToB);
    var net := R.NetInput(s.remaining, rate, true);
    if Cost(s, b, aToB) <= net then Gain(s, b, aToB)
    else
      R.NoLiquidityIsFree(s.sqrtPrice, OrcaPrice(b.tickIndex), aToB);
      R.NextPriceSound(s.sqrtPrice, s.liquidity, net, aToB);
      R.OutputDelta(s.sqrtPrice, R.NextSqrtPrice(s.sqrtPrice, s.liquidity, net, aToB), s.liquidity, aToB)
  }

  lemma WalkPays(s: State, b: Boundary, aToB: bool, rate: nat)
    requires Approaching(s, b, aToB) && StaticAt(s, rate) && !b.initialized
    ensures var walked := StepToBoundary(s, b, aToB);
            && (walked.Ok? <==> s.out + WalkGain(s, b, aToB, rate) <= U64MAX)
            && (walked.Ok? ==> walked.value.out == s.out + WalkGain(s, b, aToB, rate))
  {
    hide OrcaPrice, StepToBoundary, R.InputDelta, R.OutputDelta, R.NextSqrtPrice, R.NetInput, R.GrossUpFee, Positioned;
    if Cost(s, b, aToB) <= R.NetInput(s.remaining, rate, true) {
      StaticReaches(s, b, aToB, rate);
    } else {
      var next := StaticStops(s, b, aToB, rate);
    }
  }

  /** Where a run over a list ends: at the same rate, and when it has not finished, on the last stop. */
  lemma {:induction false} ListRunEnd(s: State, stops: seq<Boundary>, aToB: bool, rate: nat)
    requires Positioned(s, aToB) && StaticAt(s, rate) && (s.remaining > 0 ==> Ordered(stops, aToB, s.tick))
    ensures var end := ListRun(s, stops, aToB);
            end.Ok? ==>
              && Positioned(end.value, aToB) && StaticAt(end.value, rate)
              && (!Finished(end.value, aToB) ==>
                    if stops == [] then end.value == s
                    else var last := stops[|stops| - 1];
                         InRange(last.tickIndex) && end.value.sqrtPrice == OrcaPrice(last.tickIndex)
                         && end.value.tick == AfterCrossing(last, aToB))
    decreases |stops|
  {
    hide StepToBoundary, OrcaPrice, R.WithinSpot, FeePositioned, Cost, Gain, R.NetInput,
      R.GrossUpFee, R.OutputDelta, R.NextSqrtPrice,
      R.InputDelta;
    if stops != [] && s.remaining > 0 && s.sqrtPrice != Limit(aToB) {
      var b := stops[0];
      AtBoundary(s, b, aToB);
      var next := StepToBoundary(s, b, aToB);
      StepToBoundarySound(s, b, aToB);
      if Cost(s, b, aToB) <= R.NetInput(s.remaining, rate, true) {
        StaticReaches(s, b, aToB, rate);
      } else {
        var short := StaticStops(s, b, aToB, rate);
      }
      if next.Ok? {
        ListRunEnd(next.value, stops[1..], aToB, rate);
      }
    }
  }

  // ---- exactly when adding stops never pays more ----

  /** `fine` is `coarse` with uninitialized stops added anywhere, past its last stop included. */
  predicate Adds(fine: seq<Boundary>, coarse: seq<Boundary>) {
    if coarse == [] then forall k :: 0 <= k < |fine| ==> !fine[k].initialized
    else
      && fine != []
      && ((fine[0] == coarse[0] && Adds(fine[1..], coarse[1..])) || (!fine[0].initialized && Adds(fine[1..], coarse)))
  }

  /** The uninitialized stop at the end of the tick range. */
  function FarStop(aToB: bool): Boundary {
    Boundary(if aToB then MIN_TICK else MAX_TICK, None, false)
  }

  /** The added stops ahead of the last common one, and those past it. */
  lemma {:induction false} AddsSplit(fine: seq<Boundary>, coarse: seq<Boundary>)
    returns (inserted: seq<Boundary>, later: seq<Boundary>)
    requires Adds(fine, coarse)
    ensures fine == inserted + later && Inserts(inserted, coarse)
    decreases |fine|
  {
    if coarse == [] {
      inserted, later := [], fine;
    } else {
      var rest;
      if fine[0] == coarse[0] && Adds(fine[1..], coarse[1..]) {
        rest, later := AddsSplit(fine[1..], coarse[1..]);
      } else {
        rest, later := AddsSplit(fine[1..], coarse);
      }
      inserted := [fine[0]] + rest;
      assert inserted[1..] == rest;
    }
  }

  /** Ahead of one more common stop, everything added is inserted. */
  lemma {:induction false} AddedIsInserted(fine: seq<Boundary>, coarse: seq<Boundary>, b: Boundary)
    requires Adds(fine, coarse)
    ensures Inserts(fine + [b], coarse + [b])
    decreases |fine|
  {
    assert (fine + [b])[0] == if fine == [] then b else fine[0];
    assert (coarse + [b])[0] == if coarse == [] then b else coarse[0];
    if fine != [] {
      assert (fine + [b])[1..] == fine[1..] + [b];
      if coarse == [] {
        AddedIsInserted(fine[1..], coarse, b);
      } else {
        assert (coarse + [b])[1..] == coarse[1..] + [b];
        if fine[0] == coarse[0] && Adds(fine[1..], coarse[1..]) {
          AddedIsInserted(fine[1..], coarse[1..], b);
        } else {
          AddedIsInserted(fine[1..], coarse, b);
        }
      }
    } else {
      assert (fine + [b])[1..] == [] == (coarse + [b])[1..];
    }
  }

  /** Without its last stop, one that coarse does not have, the list still adds to coarse. */
  lemma {:induction false} AddsButLast(fine: seq<Boundary>, coarse: seq<Boundary>)
    requires Adds(fine, coarse) && fine != [] && fine[|fine| - 1] !in coarse
    ensures Adds(fine[..|fine| - 1], coarse) && !fine[|fine| - 1].initialized
    decreases |fine|
  {
    if coarse != [] {
      assert coarse[0] in coarse;
      assert fine[1..][..|fine| - 2] == fine[..|fine| - 1][1..];
      if fine[0] == coarse[0] && Adds(fine[1..], coarse[1..]) {
        AddsButLast(fine[1..], coarse[1..]);
      } else {
        AddsButLast(fine[1..], coarse);
      }
    }
  }

  lemma {:induction false} OrderedPrefix(stops: seq<Boundary>, later: seq<Boundary>, aToB: bool, fromTick: int)
    requires Ordered(stops + later, aToB, fromTick)
    ensures Ordered(stops, aToB, fromTick)
    decreases |stops|
  {
    if stops != [] {
      assert (stops + later)[0] == stops[0] && (stops + later)[1..] == stops[1..] + later;
      OrderedPrefix(stops[1..], later, aToB, AfterCrossing(stops[0], aToB));
    }
  }

  lemma {:induction false} OrderedExtends(stops: seq<Boundary>, b: Boundary, aToB: bool, fromTick: int)
    requires Ordered(stops, aToB, fromTick)
    requires StopFrom(if stops == [] then fromTick else AfterCrossing(stops[|stops| - 1], aToB), b, aToB)
    ensures Ordered(stops + [b], aToB, fromTick)
    decreases |stops|
  {
    if stops == [] {
      assert (stops + [b])[1..] == [];
    } else {
      assert (stops + [b])[0] == stops[0] && (stops + [b])[1..] == stops[1..] + [b];
      OrderedExtends(stops[1..], b, aToB, AfterCrossing(stops[0], aToB));
    }
  }

  /** The last of a list of stops is in range and past every other. */
  lemma {:induction false} OrderedLast(stops: seq<Boundary>, b: Boundary, aToB: bool, fromTick: int)
    requires Ordered(stops + [b], aToB, fromTick)
    ensures StopFrom(fromTick, b, aToB)
    ensures forall x :: x in stops ==> x.tickIndex != b.tickIndex
    decreases |stops|
  {
    if stops == [] {
      assert (stops + [b])[0] == b;
    } else {
      assert (stops + [b])[0] == stops[0] && (stops + [b])[1..] == stops[1..] + [b];
      OrderedLast(stops[1..], b, aToB, AfterCrossing(stops[0], aToB));
      assert stops == [stops[0]] + stops[1..];
    }
  }

  /** Short of its limit a run has the end of the tick range ahead of it. */
  lemma FarStopAhead(s: State, aToB: bool)
    requires Positioned(s, aToB) && s.sqrtPrice != Limit(aToB)
    ensures StopFrom(s.tick, FarStop(aToB), aToB) && Approaching(s, FarStop(aToB), aToB)
  {
    hide OrcaPrice, FeePositioned;
    InsideRange(s, aToB);
    AtBoundary(s, FarStop(aToB), aToB);
  }

  /** A list with one more stop at the end of the tick range, where it does not end there already. */
  lemma EndsFar(stops: seq<Boundary>, x: Boundary, aToB: bool, fromTick: int)
    requires Ordered(stops, aToB, fromTick) && x.tickIndex == FarStop(aToB).tickIndex && StopFrom(fromTick, x, aToB)
    requires stops != [] ==> stops[|stops| - 1].tickIndex != x.tickIndex
    ensures Ordered(stops + [x], aToB, fromTick)
  {
    if stops != [] {
      var last := stops[|stops| - 1];
      assert stops == stops[..|stops| - 1] + [last];
      OrderedLast(stops[..|stops| - 1], last, aToB, fromTick);
    }
    OrderedExtends(stops, x, aToB, fromTick);
  }

  lemma StartsBehindItself(s: State, rate: nat, aToB: bool)
    requires s.sqrtPrice > 0 && rate < FEE_RATE_MUL
    ensures Behind(s, s, 0, rate, aToB)
  {
    hide R.InputDelta, R.OutputDelta;
    R.InputDeltaSame(s.sqrtPrice, s.liquidity, aToB);
  }

  /** Added stops do nothing for a run that finishes without them. */
  lemma FinishedNeverPaysMore(s: State, coarse: seq<Boundary>, fine: seq<Boundary>, rate: nat, aToB: bool)
    requires Positioned(s, aToB) && StaticAt(s, rate) && Adds(fine, coarse)
    requires Ordered(coarse, aToB, s.tick) && Ordered(fine, aToB, s.tick)
    requires ListRun(s, coarse, aToB).Ok? && Finished(ListRun(s, coarse, aToB).value, aToB)
    ensures ListRun(s, fine, aToB).Ok? && ListRun(s, fine, aToB).value.out <= ListRun(s, coarse, aToB).value.out
  {
    hide OrcaPrice, ListRun, Behind, FeePositioned, R.WithinSpot;
    var inserted, later := AddsSplit(fine, coarse);
    OrderedPrefix(inserted, later, aToB, s.tick);
    StartsBehindItself(s, rate, aToB);
    if coarse != [] {
      AtBoundary(s, coarse[0], aToB);
    }
    InsertedStopsPayLess(s, coarse, s, inserted, 0, rate, aToB);
    LaterStopsPayMore(s, inserted, later, aToB);
  }

  /** What a run with one more stop at the end of the range comes to, when without it the run did not finish. */
  lemma FarRun(s: State, coarse: seq<Boundary>, x: Boundary, rate: nat, aToB: bool)
    requires Positioned(s, aToB) && StaticAt(s, rate) && Ordered(coarse, aToB, s.tick)
    requires ListRun(s, coarse, aToB).Ok? && !Finished(ListRun(s, coarse, aToB).value, aToB)
    requires x.tickIndex == FarStop(aToB).tickIndex && !x.initialized
    ensures Ordered(coarse + [x], aToB, s.tick)
    ensures var end := ListRun(s, coarse, aToB).value;
            && Approaching(end, FarStop(aToB), aToB) && rate < FEE_RATE_MUL
            && var long, gain := ListRun(s, coarse + [x], aToB), WalkGain(end, FarStop(aToB), aToB, rate);
            && (long.Ok? <==> end.out + gain <= U64MAX)
            && (long.Ok? ==> long.value.out == end.out + gain)
  {
    hide OrcaPrice, StepToBoundary, WalkGain, FeePositioned, R.WithinSpot, Gain, Cost;
    var end := ListRun(s, coarse, aToB).value;
    ListRunEnd(s, coarse, aToB, rate);
    FarStopAhead(end, aToB);
    OrcaPriceBounds();
    if s.sqrtPrice != Limit(aToB) {
      FarStopAhead(s, aToB);
    }
    EndsFar(coarse, x, aToB, s.tick);
    LaterStopsPayMore(s, coarse, [x], aToB);
    assert [x][1..] == [];
    WalkPays(end, x, aToB, rate);
    GainByTick(end, x, FarStop(aToB), aToB, rate);
    StepToBoundarySound(end, x, aToB);
  }

  lemma GainByTick(s: State, b: Boundary, x: Boundary, aToB: bool, rate: nat)
    requires Approaching(s, b, aToB) && b.tickIndex == x.tickIndex && rate < FEE_RATE_MUL
    ensures Approaching(s, x, aToB) && WalkGain(s, b, aToB, rate) == WalkGain(s, x, aToB, rate)
  {
    hide OrcaPrice, R.InputDelta, R.OutputDelta, R.NextSqrtPrice, R.NetInput;
  }

  /** Whatever is added, a run is paid at most what one more stop at the end of the tick range would add. */
  lemma AddedStopsBound(s: State, coarse: seq<Boundary>, fine: seq<Boundary>, rate: nat, aToB: bool)
    requires Positioned(s, aToB) && StaticAt(s, rate) && Adds(fine, coarse)
    requires Ordered(coarse, aToB, s.tick) && Ordered(fine, aToB, s.tick)
    requires ListRun(s, coarse, aToB).Ok? && !Finished(ListRun(s, coarse, aToB).value, aToB)
    ensures var end := ListRun(s, coarse, aToB).value;
            && Approaching(end, FarStop(aToB), aToB)
            && var most := end.out + WalkGain(end, FarStop(aToB), aToB, rate);
            most <= U64MAX ==> ListRun(s, fine, aToB).Ok? && ListRun(s, fine, aToB).value.out <= most
  {
    hide OrcaPrice, ListRun, Behind, FeePositioned, R.WithinSpot, WalkGain;
    var far := FarStop(aToB);
    FarRun(s, coarse, far, rate, aToB);
    StartsBehindItself(s, rate, aToB);
    OrderedLast(coarse, far, aToB, s.tick);
    if fine != [] && fine[|fine| - 1].tickIndex == far.tickIndex {
      var body, x := fine[..|fine| - 1], fine[|fine| - 1];
      AddsButLast(fine, coarse);
      assert fine == body + [x];
      FarRun(s, coarse, x, rate, aToB);
      AddedIsInserted(body, coarse, x);
      AtBoundary(s, (coarse + [x])[0], aToB);
      InsertedStopsPayLess(s, coarse + [x], s, fine, 0, rate, aToB);
    } else {
      EndsFar(fine, far, aToB, s.tick);
      AddedIsInserted(fine, coarse, far);
      AtBoundary(s, (coarse + [far])[0], aToB);
      InsertedStopsPayLess(s, coarse + [far], s, fine + [far], 0, rate, aToB);
      LaterStopsPayMore(s, fine, [far], aToB);
    }
  }

  /** Adding uninitialized stops, anywhere, keeps a run succeeding and never raises what it pays. */
  ghost predicate NeverPaysMore(s: State, coarse: seq<Boundary>, aToB: bool)
    requires Positioned(s, aToB) && Ordered(coarse, aToB, s.tick) && ListRun(s, coarse, aToB).Ok?
  {
    forall fine: seq<Boundary> :: Adds(fine, coarse) && Ordered(fine, aToB, s.tick) ==>
                                    ListRun(s, fine, aToB).Ok?
                                    && ListRun(s, fine, aToB).value.out <= ListRun(s, coarse, aToB).value.out
  }

  /** Exactly when added stops never pay more: the run finishes without them, or one at the end of the tick
      range would gain nothing from where it stops. */
  lemma ExtraStopsIff(s: State, coarse: seq<Boundary>, rate: nat, aToB: bool)
    requires Positioned(s, aToB) && StaticAt(s, rate) && Ordered(coarse, aToB, s.tick) && ListRun(s, coarse, aToB).Ok?
    ensures var end := ListRun(s, coarse, aToB).value;
            && (Finished(end, aToB) || Approaching(end, FarStop(aToB), aToB))
            && (NeverPaysMore(s, coarse, aToB) <==>
                Finished(end, aToB) || WalkGain(end, FarStop(aToB), aToB, rate) == 0)
  {
    hide OrcaPrice, ListRun, FeePositioned, WalkGain;
    var end := ListRun(s, coarse, aToB).value;
    if Finished(end, aToB) {
      forall fine: seq<Boundary> | Adds(fine, coarse) && Ordered(fine, aToB, s.tick)
        ensures ListRun(s, fine, aToB).Ok? && ListRun(s, fine, aToB).value.out <= end.out
      {
        FinishedNeverPaysMore(s, coarse, fine, rate, aToB);
      }
    } else {
      ListRunSound(s, coarse, aToB);
      FarRun(s, coarse, FarStop(aToB), rate, aToB);
      AddsAtEnd(coarse, FarStop(aToB));
      forall fine: seq<Boundary> | Adds(fine, coarse) && Ordered(fine, aToB, s.tick)
                                   && WalkGain(end, FarStop(aToB), aToB, rate) == 0
        ensures ListRun(s, fine, aToB).Ok? && ListRun(s, fine, aToB).value.out <= end.out
      {
        AddedStopsBound(s, coarse, fine, rate, aToB);
      }
    }
  }

  lemma {:induction false} AddsAtEnd(coarse: seq<Boundary>, b: Boundary)
    requires !b.initialized
    ensures Adds(coarse + [b], coarse)
    decreases |coarse|
  {
    if coarse != [] {
      assert (coarse + [b])[0] == coarse[0] && (coarse + [b])[1..] == coarse[1..] + [b];
      AddsAtEnd(coarse[1..], b);
    }
  }
}
