/** Folding a table of fixed-point multipliers over the bits of an exponent, low bit first,
    rounding down after every multiplication. The tick tables of both CLMM venues and the
    square-and-multiply loops of both Meteora venues are instances. */
module BitFold {
  import opened Rounding

  function Pow2(i: nat): (p: nat)
    ensures p > 0
  {
    if i == 0 then 1 else 2 * Pow2(i - 1)
  }

  /** Bit i of n, as `n & (1 << i) != 0`. */
  predicate BitSet(n: nat, i: nat) {
    FloorDiv(n, Pow2(i)) % 2 == 1
  }

  function MulShift(r: nat, m: nat, unit: nat): nat
    requires unit > 0
  {
    FloorDiv(r * m, unit)
  }

  /** The accumulator `r` after the bits i, i+1, ... of the exponent, whose remaining bits are n. */
  function Fold(t: seq<nat>, unit: nat, i: nat, n: nat, r: nat): nat
    requires unit > 0 && i <= |t|
    decreases |t| - i
  {
    if i == |t| then r
    else Fold(t, unit, i + 1, n / 2, if n % 2 == 1 then MulShift(r, t[i], unit) else r)
  }

  /** A shift by one more bit is one more halving. */
  lemma NextBits(n: nat, i: nat)
    ensures FloorDiv(n, Pow2(i + 1)) == FloorDiv(n, Pow2(i)) / 2
  {
    FloorNested(n, Pow2(i), 2);
  }

  /** A gap of need[i] before bit i leaves a gap of need[i+1] after it, whether or not the bit is set. */
  ghost predicate Survives(t: seq<nat>, unit: nat, need: seq<nat>) {
    && |need| == |t| + 1
    && forall i :: 0 <= i < |t| ==> SurvivesAt(t[i], unit, need[i], need[i + 1])
  }

  predicate SurvivesAt(m: nat, unit: nat, before: nat, after: nat) {
    after * unit <= before * m && after <= before
  }

  /** ones[i] is the fold of the first i bits, all set: what a carry into bit i replaces. */
  ghost predicate AllOnes(t: seq<nat>, unit: nat, ones: seq<nat>) {
    && |ones| == |t| + 1
    && ones[0] == unit
    && forall i :: 0 <= i < |t| ==> ones[i + 1] * unit <= ones[i] * t[i] < ones[i + 1] * unit + unit
  }

  /** Setting bit i alone lands below setting all the lower bits, with a gap that survives. */
  ghost predicate CarriesDown(t: seq<nat>, ones: seq<nat>, need: seq<nat>) {
    && |ones| == |need| == |t| + 1
    && forall i :: 0 <= i < |t| ==> t[i] + need[i + 1] <= ones[i]
  }

  ghost predicate CarriesUp(t: seq<nat>, ones: seq<nat>, need: seq<nat>) {
    && |ones| == |need| == |t| + 1
    && forall i :: 0 <= i < |t| ==> ones[i] + need[i + 1] <= t[i]
  }

  lemma MulShiftMono(x: nat, y: nat, m: nat, unit: nat)
    requires unit > 0 && x <= y
    ensures MulShift(x, m, unit) <= MulShift(y, m, unit)
  {
    MulMono(x, y, m);
    FloorMono(x * m, y * m, unit);
  }

  /** floor(x*m/u) - floor(y*m/u) >= floor((x-y)*m/u): a gap shrinks no more than a number does. */
  lemma MulShiftGap(x: nat, y: nat, m: nat, unit: nat, before: nat, after: nat)
    requires unit > 0 && y + before <= x
    requires SurvivesAt(m, unit, before, after)
    ensures MulShift(y, m, unit) + after <= MulShift(x, m, unit)
  {
    Distribute(m, y, before);
    assert (y + before) * m == y * m + before * m;
    FloorGap(y * m, before * m, unit);
    FloorAdjoint(after, before * m, unit);
    MulShiftMono(y + before, x, m, unit);
  }

  lemma MulShiftUnit(m: nat, unit: nat)
    requires unit > 0
    ensures MulShift(unit, m, unit) == m
  {
    FloorUnique(m, unit * m, unit);
  }

  /** A surviving gap between two accumulators is still there after any remaining bits. */
  lemma {:induction false} GapSurvives(t: seq<nat>, unit: nat, need: seq<nat>, i: nat, n: nat, x: nat, y: nat)
    requires unit > 0 && i <= |t| && Survives(t, unit, need)
    requires y + need[i] <= x
    ensures Fold(t, unit, i, n, y) + need[|t|] <= Fold(t, unit, i, n, x)
    decreases |t| - i
  {
    if i < |t| {
      assert SurvivesAt(t[i], unit, need[i], need[i + 1]);
      if n % 2 == 1 {
        MulShiftGap(x, y, t[i], unit, need[i], need[i + 1]);
        GapSurvives(t, unit, need, i + 1, n / 2, MulShift(x, t[i], unit), MulShift(y, t[i], unit));
      } else {
        GapSurvives(t, unit, need, i + 1, n / 2, x, y);
      }
    }
  }

  /** Carry induction: from bit i on, with all lower bits set in the smaller exponent and clear
      in its successor, the successor's fold lies below by the surviving gap. */
  lemma {:induction false} CarryDown(t: seq<nat>, unit: nat, ones: seq<nat>, need: seq<nat>, i: nat, n: nat)
    requires unit > 0 && i <= |t| && n + 1 < Pow2(|t| - i)
    requires Survives(t, unit, need) && AllOnes(t, unit, ones) && CarriesDown(t, ones, need)
    ensures Fold(t, unit, i, n + 1, unit) + need[|t|] <= Fold(t, unit, i, n, ones[i])
    decreases |t| - i
  {
    if i < |t| {
      MulShiftUnit(t[i], unit);
      if n % 2 == 0 {
        GapSurvives(t, unit, need, i + 1, n / 2, ones[i], t[i]);
      } else {
        FloorUnique(ones[i + 1], ones[i] * t[i], unit);
        CarryDown(t, unit, ones, need, i + 1, n / 2);
        assert (n + 1) / 2 == n / 2 + 1;
      }
    }
  }

  lemma {:induction false} CarryUp(t: seq<nat>, unit: nat, ones: seq<nat>, need: seq<nat>, i: nat, n: nat)
    requires unit > 0 && i <= |t| && n + 1 < Pow2(|t| - i)
    requires Survives(t, unit, need) && AllOnes(t, unit, ones) && CarriesUp(t, ones, need)
    ensures Fold(t, unit, i, n, ones[i]) + need[|t|] <= Fold(t, unit, i, n + 1, unit)
    decreases |t| - i
  {
    if i < |t| {
      MulShiftUnit(t[i], unit);
      if n % 2 == 0 {
        GapSurvives(t, unit, need, i + 1, n / 2, t[i], ones[i]);
      } else {
        FloorUnique(ones[i + 1], ones[i] * t[i], unit);
        CarryUp(t, unit, ones, need, i + 1, n / 2);
        assert (n + 1) / 2 == n / 2 + 1;
      }
    }
  }
}
