/** Q64.64 sqrt prices by tick, for Raydium CLMM and for Orca Whirlpool. Both price functions are
    strictly increasing over every tick a 19-bit magnitude can express: the gap a carry opens in the
    table survives every later rounding, the reciprocal of Raydium's positive ticks included. */
module TickMath {
  import opened Rounding
  import opened BitFold
  import opened TickTables

  function Magnitude(tick: int): nat {
    if tick < 0 then -tick else tick
  }

  predicate InSpan(tick: int) {
    Magnitude(tick) < TICK_SPAN
  }

  predicate InRange(tick: int) {
    MIN_TICK <= tick <= MAX_TICK
  }

  // ---- any certified table ----

  function TableRatio(t: seq<nat>, unit: nat, n: nat): nat
    requires unit > 0
  {
    Fold(t, unit, 0, n, unit)
  }

  lemma SpanIsAllBits()
    ensures Pow2(BITS) == TICK_SPAN
  {
    assert Pow2(6) == 64;
    assert Pow2(12) == 64 * 64;
    assert Pow2(18) == 64 * 64 * 64;
  }

  lemma CertifiedTable(t: seq<nat>, unit: nat, ones: seq<nat>, need: seq<nat>, down: bool)
    requires Certified(t, unit, ones, need, down)
    ensures Survives(t, unit, need) && AllOnes(t, unit, ones)
    ensures if down then CarriesDown(t, ones, need) else CarriesUp(t, ones, need)
  {
    forall i: nat | i < BITS
      ensures SurvivesAt(t[i], unit, need[i], need[i + 1])
      ensures ones[i + 1] * unit <= ones[i] * t[i] < ones[i + 1] * unit + unit
      ensures if down then t[i] + need[i + 1] <= ones[i] else ones[i] + need[i + 1] <= t[i]
    {
      assert Row(t, unit, ones, need, i, down);
    }
  }

  lemma TableDescends(t: seq<nat>, unit: nat, ones: seq<nat>, need: seq<nat>, n: nat)
    requires unit > 0 && n + 1 < TICK_SPAN
    requires Certified(t, unit, ones, need, true)
    ensures TableRatio(t, unit, n + 1) + need[BITS] <= TableRatio(t, unit, n)
  {
    CertifiedTable(t, unit, ones, need, true);
    SpanIsAllBits();
    CarryDown(t, unit, ones, need, 0, n);
  }

  lemma TableClimbs(t: seq<nat>, unit: nat, ones: seq<nat>, need: seq<nat>, n: nat)
    requires unit > 0 && n + 1 < TICK_SPAN
    requires Certified(t, unit, ones, need, false)
    ensures TableRatio(t, unit, n) + need[BITS] <= TableRatio(t, unit, n + 1)
  {
    CertifiedTable(t, unit, ones, need, false);
    SpanIsAllBits();
    CarryUp(t, unit, ones, need, 0, n);
  }

  lemma {:induction false} FoldOfZero(t: seq<nat>, unit: nat, i: nat, n: nat)
    requires unit > 0 && i <= |t|
    ensures Fold(t, unit, i, n, 0) == 0
    decreases |t| - i
  {
    if i < |t| {
      FloorUnique(0, 0 * t[i], unit);
      FoldOfZero(t, unit, i + 1, n / 2);
    }
  }

  lemma {:induction false} FoldOverNoBits(t: seq<nat>, unit: nat, i: nat, r: nat)
    requires unit > 0 && i <= |t|
    ensures Fold(t, unit, i, 0, r) == r
    decreases |t| - i
  {
    if i < |t| {
      FoldOverNoBits(t, unit, i + 1, r);
    }
  }

  lemma TableAtZero(t: seq<nat>, unit: nat)
    requires unit > 0
    ensures TableRatio(t, unit, 0) == unit
  {
    FoldOverNoBits(t, unit, 0, unit);
  }

  /** A table whose unit outlives every floor never folds to zero. */
  lemma TablePositive(t: seq<nat>, unit: nat, ones: seq<nat>, need: seq<nat>, n: nat)
    requires unit > 0 && Certified(t, unit, ones, need, true)
    requires need[0] <= unit
    ensures TableRatio(t, unit, n) >= need[BITS]
  {
    CertifiedTable(t, unit, ones, need, true);
    GapSurvives(t, unit, need, 0, n, unit, 0);
    FoldOfZero(t, unit, 0, n);
  }

  /** Bit 0 seeds the accumulator instead of multiplying it. */
  lemma FirstBit(t: seq<nat>, unit: nat, n: nat)
    requires unit > 0 && |t| > 0
    ensures Fold(t, unit, 1, FloorDiv(n, Pow2(1)), if BitSet(n, 0) then t[0] else unit) == TableRatio(t, unit, n)
  {
    NextBits(n, 0);
    FloorUnique(n, n, 1);
    MulShiftUnit(t[0], unit);
  }

  /** The loop both programs run over a table: seed from bit 0, then one rounding-down
      multiplication per further set bit. */
  method FoldTable(t: seq<nat>, unit: nat, n: nat) returns (ratio: nat)
    requires unit > 0 && |t| > 0
    ensures ratio == TableRatio(t, unit, n)
  {
    ratio := if BitSet(n, 0) then t[0] else unit;
    FirstBit(t, unit, n);
    var i := 1;
    while i < |t|
      invariant 1 <= i <= |t|
      invariant Fold(t, unit, i, FloorDiv(n, Pow2(i)), ratio) == TableRatio(t, unit, n)
    {
      NextBits(n, i);
      if BitSet(n, i) {
        ratio := MulShift(ratio, t[i], unit);
      }
      i := i + 1;
    }
  }

  lemma {:induction false} EdgeFold(t: seq<nat>, unit: nat, acc: seq<nat>, i: nat)
    requires unit > 0 && EdgeTrace(t, unit, acc) && i <= BITS
    ensures Fold(t, unit, i, EDGE_BITS[i], acc[i]) == acc[BITS]
    decreases BITS - i
  {
    if i < BITS {
      assert EdgeRow(t[i], unit, EDGE_BITS[i], EDGE_BITS[i + 1], acc[i], acc[i + 1]);
      if EDGE_BITS[i] % 2 == 1 {
        FloorUnique(acc[i + 1], acc[i] * t[i], unit);
      }
      EdgeFold(t, unit, acc, i + 1);
    }
  }

  // ---- Raydium ----

  /** 1.0001^(-n/2) in Q64.64. */
  function RaydiumRatio(n: nat): (r: nat)
    ensures r > 0
  {
    RaydiumRatioPositive(n);
    TableRatio(MAGICS, Q64, n)
  }

  lemma RaydiumRatioPositive(n: nat)
    ensures TableRatio(MAGICS, Q64, n) > 0
  {
    hide TableRatio;
    MagicsCertified();
    TablePositive(MAGICS, Q64, MAGICS_ONES, MAGICS_NEED, n);
  }

  /** The sqrt price at a tick: the table gives negative ticks, its reciprocal the positive ones. */
  function RaydiumPrice(tick: int): nat {
    if tick > 0 then FloorDiv(U128MAX, RaydiumRatio(tick)) else RaydiumRatio(-tick)
  }

  lemma RaydiumRatioDescends(n: nat)
    requires n + 1 < TICK_SPAN
    ensures RaydiumRatio(n + 1) < RaydiumRatio(n)
  {
    hide TableRatio;
    MagicsCertified();
    TableDescends(MAGICS, Q64, MAGICS_ONES, MAGICS_NEED, n);
  }

  lemma {:induction false} RaydiumRatioBound(n: nat)
    requires n < TICK_SPAN
    ensures RaydiumRatio(n) <= Q64 - (if n == 0 then 0 else 1)
    ensures n == 0 ==> RaydiumRatio(n) == Q64
  {
    hide TableRatio;
    if n == 0 {
      TableAtZero(MAGICS, Q64);
    } else {
      RaydiumRatioBound(n - 1);
      RaydiumRatioDescends(n - 1);
    }
  }

  /** Reciprocals of different ratios stay different after rounding down. */
  lemma ReciprocalGap(low: nat, high: nat)
    requires 0 < low < high <= Q64
    ensures FloorDiv(U128MAX, high) < FloorDiv(U128MAX, low)
  {
    var q := FloorDiv(U128MAX, high);
    ReciprocalRoom(q, low, high);
    FloorAdjoint(q + 1, U128MAX, low);
  }

  lemma ReciprocalRoom(q: nat, low: nat, high: nat)
    requires 0 < low < high <= Q64 && q * high <= U128MAX
    ensures (q + 1) * low <= U128MAX
  {
    MulMono(low, high - 1, q + 1);
    if q < high {
      MulMono(q + 1, Q64, high - 1);
      MulMono(high - 1, Q64 - 1, Q64);
      assert Q64 * (Q64 - 1) <= U128MAX;
    } else {
      RoomIdentity(q, high);
    }
  }

  lemma RoomIdentity(q: nat, high: nat)
    requires high > 0
    ensures (q + 1) * (high - 1) == q * high - q + high - 1
  {
  }

  lemma RaydiumPriceStep(tick: int)
    requires InSpan(tick) && InSpan(tick + 1)
    ensures RaydiumPrice(tick) < RaydiumPrice(tick + 1)
  {
    hide RaydiumRatio;
    if tick < 0 {
      RaydiumRatioDescends(-tick - 1);
    } else {
      RaydiumRatioBound(tick);
      RaydiumRatioDescends(tick);
      if tick == 0 {
        FloorAdjoint(Q64 + 1, U128MAX, RaydiumRatio(1));
        MulMono(RaydiumRatio(1), Q64 - 1, Q64 + 1);
      } else {
        ReciprocalGap(RaydiumRatio(tick + 1), RaydiumRatio(tick));
      }
    }
  }

  /** The Raydium sqrt price is strictly increasing in the tick. */
  lemma {:induction false} RaydiumPriceIncreasing(t: int, u: int)
    requires InSpan(t) && InSpan(u) && t < u
    ensures RaydiumPrice(t) < RaydiumPrice(u)
    decreases u - t
  {
    hide RaydiumPrice;
    RaydiumPriceStep(u - 1);
    if t < u - 1 {
      RaydiumPriceIncreasing(t, u - 1);
    }
  }

  /** get_sqrt_price_at_tick: the table, then its reciprocal for positive ticks. */
  method RaydiumSqrtPriceFromTick(tick: int) returns (price: nat)
    ensures price == RaydiumPrice(tick)
  {
    hide TableRatio;
    price := FoldTable(MAGICS, Q64, Magnitude(tick));
    RaydiumRatioPositive(Magnitude(tick));
    if tick > 0 {
      price := FloorDiv(U128MAX, price);
    }
  }

  /** The tick bounds price exactly at the sqrt-price limits of a Raydium swap. */
  lemma RaydiumPriceBounds()
    ensures RaydiumPrice(MIN_TICK) == MIN_SQRT_PRICE
    ensures RaydiumPrice(MAX_TICK) == RAYDIUM_MAX_SQRT_PRICE
  {
    MagicsEdge();
    EdgeFold(MAGICS, Q64, MAGICS_EDGE, 0);
  }

  /** The greatest tick in range whose price does not exceed p (get_tick_at_sqrt_price). */
  function RaydiumTickAt(p: nat): (tick: int)
    requires MIN_SQRT_PRICE <= p
    ensures InRange(tick) && RaydiumPrice(tick) <= p
    ensures tick < MAX_TICK ==> p < RaydiumPrice(tick + 1)
  {
    hide RaydiumPrice;
    RaydiumPriceBounds();
    RaydiumTickBelow(p, MAX_TICK)
  }

  function RaydiumTickBelow(p: nat, from: int): (tick: int)
    requires InRange(from) && RaydiumPrice(MIN_TICK) <= p
    ensures MIN_TICK <= tick <= from && RaydiumPrice(tick) <= p
    ensures tick < from ==> p < RaydiumPrice(tick + 1)
    decreases from - MIN_TICK
  {
    hide RaydiumPrice;
    if RaydiumPrice(from) <= p then from else RaydiumTickBelow(p, from - 1)
  }

  // ---- Orca ----

  function OrcaPrice(tick: int): nat {
    if tick >= 0 then FloorDiv(TableRatio(POSITIVE, Q96, tick), Q32) else TableRatio(NEGATIVE, Q64, -tick)
  }

  /** The Q96 table climbs by at least 2^32 a tick, so the final 32-bit shift keeps prices apart. */
  lemma OrcaPriceStep(tick: int)
    requires InSpan(tick) && InSpan(tick + 1)
    ensures OrcaPrice(tick) < OrcaPrice(tick + 1)
  {
    hide TableRatio;
    if tick >= 0 {
      PositiveCertified();
      TableClimbs(POSITIVE, Q96, POSITIVE_ONES, POSITIVE_NEED, tick);
      FloorGap(TableRatio(POSITIVE, Q96, tick), Q32, Q32);
      FloorMono(TableRatio(POSITIVE, Q96, tick) + Q32, TableRatio(POSITIVE, Q96, tick + 1), Q32);
    } else {
      NegativeCertified();
      TableDescends(NEGATIVE, Q64, NEGATIVE_ONES, NEGATIVE_NEED, -tick - 1);
      TableAtZero(NEGATIVE, Q64);
      TableAtZero(POSITIVE, Q96);
    }
  }

  /** The Orca sqrt price is strictly increasing in the tick. */
  lemma {:induction false} OrcaPriceIncreasing(t: int, u: int)
    requires InSpan(t) && InSpan(u) && t < u
    ensures OrcaPrice(t) < OrcaPrice(u)
    decreases u - t
  {
    hide OrcaPrice;
    OrcaPriceStep(u - 1);
    if t < u - 1 {
      OrcaPriceIncreasing(t, u - 1);
    }
  }

  /** sqrt_price_from_tick_index: one table per sign, the Q96 one shifted down to Q64. */
  method OrcaSqrtPriceFromTick(tick: int) returns (price: nat)
    ensures price == OrcaPrice(tick)
  {
    hide TableRatio;
    if tick >= 0 {
      price := FoldTable(POSITIVE, Q96, tick);
      price := FloorDiv(price, Q32);
    } else {
      price := FoldTable(NEGATIVE, Q64, Magnitude(tick));
    }
  }

  lemma OrcaPriceBounds()
    ensures OrcaPrice(MIN_TICK) == MIN_SQRT_PRICE
    ensures OrcaPrice(MAX_TICK) == ORCA_MAX_SQRT_PRICE
  {
    NegativeEdge();
    EdgeFold(NEGATIVE, Q64, NEGATIVE_EDGE, 0);
    PositiveEdge();
    EdgeFold(POSITIVE, Q96, POSITIVE_EDGE, 0);
  }

  function OrcaTickAt(p: nat): (tick: int)
    requires MIN_SQRT_PRICE <= p
    ensures InRange(tick) && OrcaPrice(tick) <= p
    ensures tick < MAX_TICK ==> p < OrcaPrice(tick + 1)
  {
    hide OrcaPrice;
    OrcaPriceBounds();
    OrcaTickBelow(p, MAX_TICK)
  }

  function OrcaTickBelow(p: nat, from: int): (tick: int)
    requires InRange(from) && OrcaPrice(MIN_TICK) <= p
    ensures MIN_TICK <= tick <= from && OrcaPrice(tick) <= p
    ensures tick < from ==> p < OrcaPrice(tick + 1)
    decreases from - MIN_TICK
  {
    hide OrcaPrice;
    if OrcaPrice(from) <= p then from else OrcaTickBelow(p, from - 1)
  }
}
