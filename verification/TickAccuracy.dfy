/** How accurate the tick prices are: the square of every price both venues compute for a tick in range is 2^128 times
    1.0001 to the power of that tick, within one part in a hundred million. A table entry is certified against the
    square of the entry before, and the truncations are counted. */
module TickAccuracy {
  import opened BitFold
  import opened Reals
  import opened Rounding
  import opened TickMath
  import opened TickTables

  /** Relative errors are counted in parts of this. */
  const PARTS: nat := 100_000_000_000_000_000_000

  function Scale(): (p: real)
    ensures p > 0.0
  {
    PARTS as real
  }

  function Up(err: nat): (up: real)
    ensures up > 0.0
  {
    (PARTS + err) as real
  }

  function Down(err: nat): (down: real)
    ensures err <= PARTS ==> down >= 0.0
  {
    (PARTS - err) as real
  }

  /** v/ideal lies between down/p and up/p. */
  ghost predicate Between(p: real, v: real, ideal: real, down: real, up: real) {
    p * v <= ideal * up && ideal * down <= p * v
  }

  /** v is `ideal` up to err parts. */
  ghost predicate Near(v: real, ideal: real, err: nat) {
    Between(Scale(), v, ideal, Down(err), Up(err))
  }

  // ---- certificates ----

  /** The first multiplier squared is num/den. */
  predicate FirstRow(m: nat, unit: nat, num: nat, den: nat, err: nat) {
    && m * m * den * PARTS <= num * unit * unit * (PARTS + err)
    && num * unit * unit * (PARTS - err) <= m * m * den * PARTS
  }

  /** A multiplier is the square of the one before, and the error that leaves. */
  predicate StepRow(m: nat, next: nat, unit: nat, slack: nat, err: nat, after: nat) {
    && next * unit * PARTS <= m * m * (PARTS + slack)
    && m * m * (PARTS - slack) <= next * unit * PARTS
    && Compounds(slack, err, err + slack + 1)
    && Compounds(err + slack + 1, err + slack + 1, after)
  }

  /** Two relative errors together come to no more than a third. */
  predicate Compounds(d: nat, e: nat, f: nat) {
    (PARTS + d) * (PARTS + e) <= PARTS * (PARTS + f) && d + e <= f <= PARTS
  }

  ghost predicate Accurate(t: seq<nat>, unit: nat, num: nat, den: nat, slack: seq<nat>, err: seq<nat>, sum: seq<nat>) {
    && unit > 0 && den > 0
    && |t| == |err| == BITS && |slack| == BITS - 1 && |sum| == BITS + 1
    && err[0] <= PARTS && sum[BITS] <= PARTS && FirstRow(t[0], unit, num, den, err[0])
    && (forall i: nat :: i + 1 < BITS ==> StepRow(t[i], t[i + 1], unit, slack[i], err[i], err[i + 1]))
    && (forall i: nat :: i < BITS ==> Compounds(err[i], sum[i + 1], sum[i]))
  }

  /** How far each of Raydium's entries may be from the square of the one before. */
  ghost const RAYDIUM_SLACK: seq<nat> := [
    31591, 12763, 3469, 10478, 14206, 12647, 14287, 2059, 3153, 18223, 6739, 21638, 5757, 22122, 1754, 17451,
    10712, 419099071]

  /** What that comes to against the exact power. */
  ghost const RAYDIUM_ERR: seq<nat> := [
    29930, 123045, 271619, 550179, 1121317, 2271049, 4567395, 9163367, 18330855, 36668019, 73372487,
    146758455, 293560189, 587131895, 1174308037, 2348619585, 4697274075, 9394569577, 19627337299]

  /** And in a product over the bits from one on. */
  ghost const RAYDIUM_SUM: seq<nat> := [
    38416028395, 38415998464, 38415875418, 38415603798, 38415053618, 38413932300, 38411661250, 38407093854,
    38397930486, 38379599630, 38342931610, 38269559122, 38122800666, 37829240476, 37242108580, 36067800542,
    33719180956, 29021906879, 19627337300, 0]

  /** The same for both of Orca's tables. */
  ghost const ORCA_SLACK: seq<nat> := [
    6, 2, 10, 4, 8, 2, 3, 4, 8, 2, 6, 1, 3, 2, 1, 84, 1302, 316490]

  /** Against the exact power. */
  ghost const ORCA_ERR: seq<nat> := [
    8, 31, 69, 161, 333, 685, 1377, 2763, 5537, 11093, 22193, 44401, 88807, 177623, 355253, 710511, 1421193,
    2844993, 6322969]

  /** In a product over the bits from one on. */
  ghost const ORCA_SUM: seq<nat> := [
    12010019, 12010010, 12009978, 12009908, 12009746, 12009412, 12008726, 12007348, 12004584, 11999046,
    11987952, 11965758, 11921356, 11832548, 11654924, 11299670, 10589158, 9167964, 6322970, 0]

  lemma MagicsStepLow(i: nat)
    requires 0 <= i < 6
    ensures StepRow(MAGICS[i], MAGICS[i + 1], Q64, RAYDIUM_SLACK[i], RAYDIUM_ERR[i], RAYDIUM_ERR[i + 1])
  {
    match i {
      case 0 =>
      case 1 =>
      case 2 =>
      case 3 =>
      case 4 =>
      case _ =>
    }
  }

  lemma MagicsStepMid(i: nat)
    requires 6 <= i < 12
    ensures StepRow(MAGICS[i], MAGICS[i + 1], Q64, RAYDIUM_SLACK[i], RAYDIUM_ERR[i], RAYDIUM_ERR[i + 1])
  {
    match i {
      case 6 =>
      case 7 =>
      case 8 =>
      case 9 =>
      case 10 =>
      case _ =>
    }
  }

  lemma MagicsStepHigh(i: nat)
    requires 12 <= i < 18
    ensures StepRow(MAGICS[i], MAGICS[i + 1], Q64, RAYDIUM_SLACK[i], RAYDIUM_ERR[i], RAYDIUM_ERR[i + 1])
  {
    match i {
      case 12 =>
      case 13 =>
      case 14 =>
      case 15 =>
      case 16 =>
      case _ =>
    }
  }

  lemma NegativeStepLow(i: nat)
    requires 0 <= i < 6
    ensures StepRow(NEGATIVE[i], NEGATIVE[i + 1], Q64, ORCA_SLACK[i], ORCA_ERR[i], ORCA_ERR[i + 1])
  {
    match i {
      case 0 =>
      case 1 =>
      case 2 =>
      case 3 =>
      case 4 =>
      case _ =>
    }
  }

  lemma NegativeStepMid(i: nat)
    requires 6 <= i < 12
    ensures StepRow(NEGATIVE[i], NEGATIVE[i + 1], Q64, ORCA_SLACK[i], ORCA_ERR[i], ORCA_ERR[i + 1])
  {
    match i {
      case 6 =>
      case 7 =>
      case 8 =>
      case 9 =>
      case 10 =>
      case _ =>
    }
  }

  lemma NegativeStepHigh(i: nat)
    requires 12 <= i < 18
    ensures StepRow(NEGATIVE[i], NEGATIVE[i + 1], Q64, ORCA_SLACK[i], ORCA_ERR[i], ORCA_ERR[i + 1])
  {
    match i {
      case 12 =>
      case 13 =>
      case 14 =>
      case 15 =>
      case 16 =>
      case _ =>
    }
  }

  lemma PositiveStepLow(i: nat)
    requires 0 <= i < 6
    ensures StepRow(POSITIVE[i], POSITIVE[i + 1], Q96, ORCA_SLACK[i], ORCA_ERR[i], ORCA_ERR[i + 1])
  {
    match i {
      case 0 =>
      case 1 =>
      case 2 =>
      case 3 =>
      case 4 =>
      case _ =>
    }
  }

  lemma PositiveStepMid(i: nat)
    requires 6 <= i < 12
    ensures StepRow(POSITIVE[i], POSITIVE[i + 1], Q96, ORCA_SLACK[i], ORCA_ERR[i], ORCA_ERR[i + 1])
  {
    match i {
      case 6 =>
      case 7 =>
      case 8 =>
      case 9 =>
      case 10 =>
      case _ =>
    }
  }

  lemma PositiveStepHigh(i: nat)
    requires 12 <= i < 18
    ensures StepRow(POSITIVE[i], POSITIVE[i + 1], Q96, ORCA_SLACK[i], ORCA_ERR[i], ORCA_ERR[i + 1])
  {
    match i {
      case 12 =>
      case 13 =>
      case 14 =>
      case 15 =>
      case 16 =>
      case _ =>
    }
  }

  lemma RaydiumSums(i: nat)
    requires i < BITS
    ensures Compounds(RAYDIUM_ERR[i], RAYDIUM_SUM[i + 1], RAYDIUM_SUM[i])
  {
    match i {
      case 0 =>
      case 1 =>
      case 2 =>
      case 3 =>
      case 4 =>
      case 5 =>
      case 6 =>
      case 7 =>
      case 8 =>
      case 9 =>
      case 10 =>
      case 11 =>
      case 12 =>
      case 13 =>
      case 14 =>
      case 15 =>
      case 16 =>
      case 17 =>
      case _ =>
    }
  }

  lemma OrcaSums(i: nat)
    requires i < BITS
    ensures Compounds(ORCA_ERR[i], ORCA_SUM[i + 1], ORCA_SUM[i])
  {
    match i {
      case 0 =>
      case 1 =>
      case 2 =>
      case 3 =>
      case 4 =>
      case 5 =>
      case 6 =>
      case 7 =>
      case 8 =>
      case 9 =>
      case 10 =>
      case 11 =>
      case 12 =>
      case 13 =>
      case 14 =>
      case 15 =>
      case 16 =>
      case 17 =>
      case _ =>
    }
  }

  /** Raydium's table. */
  lemma MagicsAccurate()
    ensures Accurate(MAGICS, Q64, 10_000, 10_001, RAYDIUM_SLACK, RAYDIUM_ERR, RAYDIUM_SUM)
  {
    hide StepRow, Compounds;
    forall i: nat | i + 1 < BITS
      ensures StepRow(MAGICS[i], MAGICS[i + 1], Q64, RAYDIUM_SLACK[i], RAYDIUM_ERR[i], RAYDIUM_ERR[i + 1])
    {
      if i < 6 { MagicsStepLow(i); } else if i < 12 { MagicsStepMid(i); } else { MagicsStepHigh(i); }
    }
    forall i: nat | i < BITS ensures Compounds(RAYDIUM_ERR[i], RAYDIUM_SUM[i + 1], RAYDIUM_SUM[i]) {
      RaydiumSums(i);
    }
  }

  /** Orca's table for negative ticks. */
  lemma NegativeAccurate()
    ensures Accurate(NEGATIVE, Q64, 10_000, 10_001, ORCA_SLACK, ORCA_ERR, ORCA_SUM)
  {
    hide StepRow, Compounds;
    forall i: nat | i + 1 < BITS
      ensures StepRow(NEGATIVE[i], NEGATIVE[i + 1], Q64, ORCA_SLACK[i], ORCA_ERR[i], ORCA_ERR[i + 1])
    {
      if i < 6 { NegativeStepLow(i); } else if i < 12 { NegativeStepMid(i); } else { NegativeStepHigh(i); }
    }
    forall i: nat | i < BITS ensures Compounds(ORCA_ERR[i], ORCA_SUM[i + 1], ORCA_SUM[i]) {
      OrcaSums(i);
    }
  }

  /** Orca's table for the others. */
  lemma PositiveAccurate()
    ensures Accurate(POSITIVE, Q96, 10_001, 10_000, ORCA_SLACK, ORCA_ERR, ORCA_SUM)
  {
    hide StepRow, Compounds;
    forall i: nat | i + 1 < BITS
      ensures StepRow(POSITIVE[i], POSITIVE[i + 1], Q96, ORCA_SLACK[i], ORCA_ERR[i], ORCA_ERR[i + 1])
    {
      if i < 6 { PositiveStepLow(i); } else if i < 12 { PositiveStepMid(i); } else { PositiveStepHigh(i); }
    }
    forall i: nat | i < BITS ensures Compounds(ORCA_ERR[i], ORCA_SUM[i + 1], ORCA_SUM[i]) {
      OrcaSums(i);
    }
  }

  // ---- the multipliers against the exact powers ----

  /** Multiplying two bounds on either side, all of it named. */
  lemma BoundsTimes(p: real, u: real, i: real, d: real, v: real, j: real, e: real)
    requires 0.0 <= p && 0.0 <= u && 0.0 <= i && 0.0 <= v && 0.0 <= j && 0.0 <= d && 0.0 <= e
    ensures p * u <= i * d && p * v <= j * e ==> (p * p) * (u * v) <= (i * j) * (d * e)
    ensures i * d <= p * u && j * e <= p * v ==> (i * j) * (d * e) <= (p * p) * (u * v)
  {
    var a, b, c, k := p * u, i * d, p * v, j * e;
    if a <= b && c <= k {
      RealTimes(a, b, c, k);
    }
    if b <= a && k <= c {
      NonNegative(i, d);
      NonNegative(j, e);
      RealTimes(b, a, k, c);
    }
    RealPairs(p, u, p, v);
    RealPairs(i, d, j, e);
    NonNegative(p, u);
    NonNegative(p, v);
  }

  /** And one bound after the other. */
  lemma BoundAfter(p: real, u: real, v: real, d: real, i: real, e: real, up: real)
    requires 0.0 < p && 0.0 <= d && 0.0 <= i
    requires p * u <= v * d && p * v <= i * e && d * e <= p * up
    ensures p * u <= i * up
  {
    var a, b, c := p * u, p * v, d * e;
    RealMulMono(a, v * d, p);
    RealMulMono(b, i * e, d);
    RealMulMono(c, p * up, i);
    Shuffled(p, u, v, i, d, e);
    Shuffled(p, u, v, i, up, p);
    RealCancel(a, i * up, p);
  }

  lemma BoundBefore(p: real, u: real, v: real, d: real, i: real, e: real, down: real)
    requires 0.0 < p && 0.0 <= d && 0.0 <= i
    requires v * d <= p * u && i * e <= p * v && p * down <= d * e
    ensures i * down <= p * u
  {
    var a, b, c := p * u, p * v, d * e;
    RealMulMono(v * d, a, p);
    RealMulMono(i * e, b, d);
    RealMulMono(p * down, c, i);
    Shuffled(p, u, v, i, d, e);
    Shuffled(p, u, v, i, down, p);
    RealCancel(i * down, a, p);
  }

  lemma Shuffled(p: real, u: real, v: real, i: real, d: real, e: real)
    ensures (p * v) * d == (v * d) * p
    ensures (i * e) * d == i * (d * e)
    ensures (p * u) * p == (p * p) * u
  {
  }

  lemma ErrorsAdd(p: nat, d: nat, e: nat, f: nat)
    requires d + e <= f <= p
    ensures p * (p - f) <= (p - d) * (p - e)
  {
    MulMono(p - f, p - (d + e), p);
    Distribute(p - d, p, e);
    Distribute(p, p, d);
    Distribute(p, p - d, e);
  }

  lemma CompoundsAsReals(p: nat, d: nat, e: nat, f: nat)
    requires (p + d) * (p + e) <= p * (p + f) && d + e <= f <= p
    ensures (p + d) as real * (p + e) as real <= p as real * (p + f) as real
    ensures p as real * (p - f) as real <= (p - d) as real * (p - e) as real
  {
    ErrorsAdd(p, d, e, f);
    OrderedProducts(p + d, p + e, p, p + f);
    OrderedProducts(p, p - f, p - d, p - e);
  }

  lemma DropOneScale(p: real, uv: real, ij: real, above: real, below: real, up: real, down: real)
    requires 0.0 < p && 0.0 <= ij
    requires (p * p) * uv <= ij * above && ij * below <= (p * p) * uv
    requires above <= p * up && p * down <= below
    ensures p * uv <= ij * up && ij * down <= p * uv
  {
    RealMulMono(above, p * up, ij);
    RealMulMono(p * down, below, ij);
    Shuffled(p, uv, up, ij, up, p);
    Shuffled(p, uv, down, ij, down, p);
    RealCancel(p * uv, ij * up, p);
    RealCancel(ij * down, p * uv, p);
  }

  /** The product of two pairs of bounds lies within a third pair. */
  ghost predicate Joins(p: real, d1: real, u1: real, d2: real, u2: real, down: real, up: real) {
    0.0 <= d1 && 0.0 <= d2 && 0.0 <= u1 && 0.0 <= u2 && u1 * u2 <= p * up && p * down <= d1 * d2
  }

  /** Compounding in reals. */
  lemma CompoundsInReals(d: nat, e: nat, f: nat)
    requires Compounds(d, e, f)
    ensures Joins(Scale(), Down(d), Up(d), Down(e), Up(e), Down(f), Up(f))
  {
    CompoundsAsReals(PARTS, d, e, f);
  }

  lemma TimesOf(p: real, u: real, i: real, v: real, j: real, d1: real, u1: real, d2: real, u2: real, down: real,
                up: real, uv: real, ij: real)
    requires uv == u * v && ij == i * j
    requires 0.0 < p && 0.0 <= u && 0.0 <= i && 0.0 <= v && 0.0 <= j
    requires Between(p, u, i, d1, u1) && Between(p, v, j, d2, u2) && Joins(p, d1, u1, d2, u2, down, up)
    ensures Between(p, uv, ij, down, up)
  {
    NonNegative(i, j);
    BoundsTimes(p, u, i, u1, v, j, u2);
    BoundsTimes(p, u, i, d1, v, j, d2);
    DropOneScale(p, uv, ij, u1 * u2, d1 * d2, up, down);
  }

  lemma NearTimes(u: real, i: real, d: nat, v: real, j: real, e: nat, f: nat, uv: real, ij: real)
    requires 0.0 <= u && 0.0 <= i && 0.0 <= v && 0.0 <= j && uv == u * v && ij == i * j
    requires Near(u, i, d) && Near(v, j, e) && Compounds(d, e, f)
    ensures Near(uv, ij, f)
  {
    hide Scale, Up, Down, Compounds, Between, Joins;
    CompoundsInReals(d, e, f);
    TimesOf(Scale(), u, i, v, j, Down(d), Up(d), Down(e), Up(e), Down(f), Up(f), uv, ij);
  }

  lemma AfterOf(p: real, u: real, v: real, i: real, d1: real, u1: real, d2: real, u2: real, down: real, up: real)
    requires 0.0 < p && 0.0 <= i
    requires Between(p, u, v, d1, u1) && Between(p, v, i, d2, u2) && Joins(p, d1, u1, d2, u2, down, up)
    ensures Between(p, u, i, down, up)
  {
    BoundAfter(p, u, v, u1, i, u2, up);
    BoundBefore(p, u, v, d1, i, d2, down);
  }

  /** Two approximations one after the other. */
  lemma NearTrans(u: real, v: real, d: nat, i: real, e: nat, f: nat)
    requires 0.0 <= i
    requires Near(u, v, d) && Near(v, i, e) && Compounds(d, e, f)
    ensures Near(u, i, f)
  {
    hide Scale, Up, Down, Compounds, Between, Joins;
    CompoundsInReals(d, e, f);
    AfterOf(Scale(), u, v, i, Down(d), Up(d), Down(e), Up(e), Down(f), Up(f));
  }

  /** A multiplier as a factor. */
  function Factor(m: nat, unit: nat): real
    requires unit > 0
  {
    m as real / unit as real
  }

  lemma Unscale(p: real, u: real, one: real, area: real, next: real)
    requires u * one == next && area == one * one
    ensures (p * u) * area == next * one * p
  {
  }

  lemma UnscaleSquare(w: real, one: real, area: real, m: real, k: real)
    requires w * one == m && area == one * one
    ensures (w * w * k) * area == m * m * k
  {
  }

  lemma IntRealTriple(a: nat, b: nat, c: nat)
    ensures (a * b * c) as real == a as real * b as real * c as real
  {
    ProductAsReal(a * b, c);
    ProductAsReal(a, b);
  }

  lemma RowOf(p: real, u: real, w: real, square: real, one: real, area: real, next: real, m: real, down: real, up: real)
    requires square == w * w && area > 0.0 && area == one * one && u * one == next && w * one == m
    requires next * one * p <= m * m * up && m * m * down <= next * one * p
    ensures Between(p, u, square, down, up)
  {
    Unscale(p, u, one, area, next);
    UnscaleSquare(w, one, area, m, up);
    UnscaleSquare(w, one, area, m, down);
    RealCancel(p * u, w * w * up, area);
    RealCancel(w * w * down, p * u, area);
  }

  lemma IntRealRow(p: nat, m: nat, next: nat, unit: nat, up: nat, down: nat)
    requires next * unit * p <= m * m * up && m * m * down <= next * unit * p
    ensures next as real * unit as real * p as real <= m as real * m as real * up as real
    ensures m as real * m as real * down as real <= next as real * unit as real * p as real
  {
    IntRealTriple(next, unit, p);
    IntRealTriple(m, m, up);
    IntRealTriple(m, m, down);
  }

  /** A certificate row divided by the square of the unit. */
  lemma RowAsReals(m: nat, next: nat, unit: nat, slack: nat)
    requires unit > 0 && slack <= PARTS
    requires next * unit * PARTS <= m * m * (PARTS + slack) && m * m * (PARTS - slack) <= next * unit * PARTS
    ensures Near(Factor(next, unit), FactorSquare(m, unit), slack)
  {
    hide Factor, Between;
    FactorTimesUnit(next, unit);
    FactorTimesUnit(m, unit);
    IntRealRow(PARTS, m, next, unit, PARTS + slack, PARTS - slack);
    var one := unit as real;
    RealPositive(one, one);
    RowOf(Scale(), Factor(next, unit), Factor(m, unit), FactorSquare(m, unit), one, one * one, next as real,
          m as real, Down(slack), Up(slack));
  }

  function FactorSquare(m: nat, unit: nat): real
    requires unit > 0
  {
    Factor(m, unit) * Factor(m, unit)
  }

  lemma FactorTimesUnit(m: nat, unit: nat)
    requires unit > 0
    ensures Factor(m, unit) * unit as real == m as real
  {
  }

  lemma UnscaleFirst(w: real, square: real, one: real, area: real, m: real, den: real, p: real, scale: real)
    requires w * one == m && square == w * w && area == one * one && scale == den * area
    ensures (p * square) * scale == m * m * den * p
  {
    UnscaleSquare(w, one, area, m, p * den);
    assert (p * square) * (den * area) == (w * w * (p * den)) * area;
  }

  lemma UnscaleIdeal(x: real, den: real, num: real, one: real, area: real, k: real, scale: real)
    requires x * den == num && area == one * one && scale == den * area
    ensures (x * k) * scale == num * one * one * k
  {
    assert (x * k) * (den * area) == (x * den) * (k * area);
  }

  lemma BetweenScaled(p: real, v: real, ideal: real, down: real, up: real, scale: real, low: real, mid: real,
                      high: real)
    requires scale > 0.0 && mid == (p * v) * scale && low == (ideal * down) * scale && high == (ideal * up) * scale
    requires low <= mid <= high
    ensures Between(p, v, ideal, down, up)
  {
    var pv, above, below := p * v, ideal * up, ideal * down;
    RealCancel(pv, above, scale);
    RealCancel(below, pv, scale);
  }

  lemma IntRealFour(a: nat, b: nat, c: nat, d: nat)
    ensures (a * b * c * d) as real == a as real * b as real * c as real * d as real
  {
    ProductAsReal(a * b * c, d);
    IntRealTriple(a, b, c);
  }

  lemma FirstOf(p: real, w: real, square: real, x: real, one: real, area: real, m: real, num: real, den: real,
                down: real, up: real)
    requires square == w * w && area > 0.0 && area == one * one && den > 0.0 && w * one == m && x * den == num
    requires m * m * den * p <= num * one * one * up && num * one * one * down <= m * m * den * p
    ensures Between(p, square, x, down, up)
  {
    var scale := den * area;
    RealPositive(den, area);
    UnscaleFirst(w, square, one, area, m, den, p, scale);
    UnscaleIdeal(x, den, num, one, area, up, scale);
    UnscaleIdeal(x, den, num, one, area, down, scale);
    BetweenScaled(p, square, x, down, up, scale, num * one * one * down, m * m * den * p, num * one * one * up);
  }

  lemma IntRealFirst(p: nat, m: nat, unit: nat, num: nat, den: nat, up: nat, down: nat)
    requires m * m * den * p <= num * unit * unit * up && num * unit * unit * down <= m * m * den * p
    ensures m as real * m as real * den as real * p as real <= num as real * unit as real * unit as real * up as real
    ensures num as real * unit as real * unit as real * down as real <= m as real * m as real * den as real * p as real
  {
    IntRealFour(m, m, den, p);
    IntRealFour(num, unit, unit, up);
    IntRealFour(num, unit, unit, down);
  }

  /** The first row divided by the square of the unit and the denominator. */
  lemma FirstAsReals(m: nat, unit: nat, num: nat, den: nat, err: nat)
    requires unit > 0 && den > 0 && err <= PARTS && FirstRow(m, unit, num, den, err)
    ensures Near(FactorSquare(m, unit), Factor(num, den), err)
  {
    hide Factor, Between;
    FactorTimesUnit(m, unit);
    FactorTimesUnit(num, den);
    IntRealFirst(PARTS, m, unit, num, den, PARTS + err, PARTS - err);
    var one := unit as real;
    RealPositive(one, one);
    FirstOf(Scale(), Factor(m, unit), FactorSquare(m, unit), Factor(num, den), one, one * one, m as real, num as real,
            den as real,
            Down(err), Up(err));
  }

  lemma PowerDoubles(x: real, i: nat)
    ensures RealPow(x, Pow2(0)) == x
    ensures RealPow(x, Pow2(i + 1)) == RealPow(x, Pow2(i)) * RealPow(x, Pow2(i))
  {
    RealPowAdd(x, Pow2(i), Pow2(i));
    assert RealPow(x, 1) == x * RealPow(x, 0);
  }

  /** A multiplier squared is the power its bit stands for. */
  lemma {:induction false} FactorNear(t: seq<nat>, unit: nat, num: nat, den: nat, slack: seq<nat>, err: seq<nat>,
                                      sum: seq<nat>, i: nat)
    requires Accurate(t, unit, num, den, slack, err, sum) && num > 0 && i < BITS
    ensures err[i] <= PARTS && Near(FactorSquare(t[i], unit), RealPow(Factor(num, den), Pow2(i)), err[i])
  {
    hide RealPow, Pow2, Near, Compounds, Factor, FactorSquare, FirstRow;
    var x := Factor(num, den);
    FactorPositive(num, den);
    if i == 0 {
      PowerDoubles(x, 0);
      FirstAsReals(t[0], unit, num, den, err[0]);
    } else {
      var j: nat := i - 1;
      assert StepRow(t[j], t[j + 1], unit, slack[j], err[j], err[j + 1]);
      FactorNear(t, unit, num, den, slack, err, sum, j);
      StepNear(t[j], t[i], unit, slack[j], err[j], err[i], x, j);
    }
  }

  lemma StepNear(m: nat, next: nat, unit: nat, slack: nat, err: nat, after: nat, x: real, j: nat)
    requires unit > 0 && StepRow(m, next, unit, slack, err, after) && x > 0.0
    requires Near(FactorSquare(m, unit), RealPow(x, Pow2(j)), err)
    ensures after <= PARTS && Near(FactorSquare(next, unit), RealPow(x, Pow2(j + 1)), after)
  {
    hide RealPow, Pow2, Near, Factor;
    var u, power, mid := Factor(next, unit), RealPow(x, Pow2(j)), err + slack + 1;
    RealPowPositive(x, Pow2(j));
    RowAsReals(m, next, unit, slack);
    FactorSign(m, unit);
    FactorSign(next, unit);
    PowerDoubles(x, j);
    NearTrans(u, FactorSquare(m, unit), slack, power, err, mid);
    NearTimes(u, power, mid, u, power, mid, after, FactorSquare(next, unit), RealPow(x, Pow2(j + 1)));
  }

  lemma FactorPositive(num: nat, den: nat)
    requires num > 0 && den > 0
    ensures Factor(num, den) > 0.0
  {
  }

  lemma FactorSign(m: nat, unit: nat)
    requires unit > 0
    ensures Factor(m, unit) >= 0.0 && FactorSquare(m, unit) >= 0.0
  {
  }

  // ---- the table loop against the exact powers ----

  /** The product of the multipliers the bits from i on select, without truncation. */
  function RealFold(t: seq<nat>, unit: nat, i: nat, n: nat): real
    requires unit > 0 && i <= |t|
    decreases |t| - i
  {
    if i == |t| then 1.0
    else
      var rest := RealFold(t, unit, i + 1, n / 2);
      if n % 2 == 1 then Factor(t[i], unit) * rest else rest
  }

  lemma {:induction false} RealFoldSign(t: seq<nat>, unit: nat, i: nat, n: nat)
    requires unit > 0 && i <= |t|
    ensures RealFold(t, unit, i, n) >= 0.0
    decreases |t| - i
  {
    hide Factor;
    if i < |t| {
      RealFoldSign(t, unit, i + 1, n / 2);
      FactorSign(t[i], unit);
      NonNegative(Factor(t[i], unit), RealFold(t, unit, i + 1, n / 2));
    }
  }

  function Squared(x: real): real {
    x * x
  }

  /** The exponent of the bits from i on. */
  lemma ExponentSplits(n: nat, i: nat)
    ensures n * Pow2(i) == (if n % 2 == 1 then Pow2(i) else 0) + (n / 2) * Pow2(i + 1)
  {
    var p, half := Pow2(i), n / 2;
    assert n == 2 * half + n % 2;
    Distribute(p, 2 * half, n % 2);
    MulAssoc(half, 2, p);
  }

  /** The square of that product is the power of the exponent. */
  lemma {:induction false} FoldNear(t: seq<nat>, unit: nat, num: nat, den: nat, slack: seq<nat>, err: seq<nat>,
                                    sum: seq<nat>, i: nat, n: nat)
    requires Accurate(t, unit, num, den, slack, err, sum) && num > 0 && i <= BITS && n < Pow2(BITS - i)
    ensures Near(Squared(RealFold(t, unit, i, n)), RealPow(Factor(num, den), n * Pow2(i)), sum[i])
    decreases BITS - i
  {
    hide RealPow, Pow2, Near, Compounds, Factor, FirstRow, StepRow, Squared, FactorSquare;
    var x := Factor(num, den);
    if i == BITS {
      NoBitsLeft(x, n, i, sum[i]);
    } else {
      HalfFits(n, i);
      FoldNear(t, unit, num, den, slack, err, sum, i + 1, n / 2);
      ExponentSplits(n, i);
      assert Compounds(err[i], sum[i + 1], sum[i]);
      var rest, power := RealFold(t, unit, i + 1, n / 2), RealPow(x, (n / 2) * Pow2(i + 1));
      FactorPositive(num, den);
      RealPowPositive(x, (n / 2) * Pow2(i + 1));
      if n % 2 == 1 {
        FactorNear(t, unit, num, den, slack, err, sum, i);
        RealPowPositive(x, Pow2(i));
        RealPowAdd(x, Pow2(i), (n / 2) * Pow2(i + 1));
        SquaredTimes(t[i], unit, rest, RealFold(t, unit, i, n));
        NearTimes(FactorSquare(t[i], unit), RealPow(x, Pow2(i)), err[i], Squared(rest), power, sum[i + 1], sum[i],
                  Squared(RealFold(t, unit, i, n)), RealPow(x, n * Pow2(i)));
      } else {
        Loosens(Squared(rest), power, sum[i + 1], err[i], sum[i]);
      }
    }
  }

  lemma NoBitsLeft(x: real, n: nat, i: nat, err: nat)
    requires n < Pow2(0) && err <= PARTS
    ensures Near(Squared(1.0), RealPow(x, n * Pow2(i)), err)
  {
    assert n == 0 && n * Pow2(i) == 0;
  }

  lemma HalfFits(n: nat, i: nat)
    requires i < BITS && n < Pow2(BITS - i)
    ensures n / 2 < Pow2(BITS - (i + 1))
  {
    assert Pow2(BITS - i) == 2 * Pow2(BITS - i - 1);
  }

  lemma SquaredTimes(m: nat, unit: nat, rest: real, whole: real)
    requires unit > 0 && whole == Factor(m, unit) * rest
    ensures Squared(whole) == FactorSquare(m, unit) * Squared(rest)
    ensures FactorSquare(m, unit) >= 0.0 && Squared(rest) >= 0.0
  {
    hide Factor;
    var w := Factor(m, unit);
    RealPairs(w, rest, w, rest);
  }

  lemma WiderBetween(p: real, v: real, ideal: real, d1: real, u1: real, d2: real, u2: real)
    requires 0.0 <= ideal && Between(p, v, ideal, d1, u1) && d2 <= d1 && u1 <= u2
    ensures Between(p, v, ideal, d2, u2)
  {
    RealMulMono(u1, u2, ideal);
    RealMulMono(d2, d1, ideal);
  }

  /** An approximation stays one with a larger error. */
  lemma Loosens(v: real, ideal: real, e: nat, d: nat, f: nat)
    requires 0.0 <= ideal && Near(v, ideal, e) && Compounds(d, e, f)
    ensures Near(v, ideal, f)
  {
    hide Scale, Up, Down, Between, Compounds;
    WiderBounds(d, e, f);
    WiderBetween(Scale(), v, ideal, Down(e), Up(e), Down(f), Up(f));
  }

  lemma WiderBounds(d: nat, e: nat, f: nat)
    requires Compounds(d, e, f)
    ensures Up(e) <= Up(f) && Down(f) <= Down(e)
  {
  }

  // ---- what the truncations of the loop cost ----

  /** One truncated multiplication. */
  lemma TruncatedFactor(r: nat, m: nat, unit: nat)
    requires unit > 0
    ensures var next := MulShift(r, m, unit) as real;
            next <= r as real * Factor(m, unit) < next + 1.0
  {
    var q := MulShift(r, m, unit);
    Distribute(unit, q, 1);
    FactorTimesUnit(m, unit);
    hide Factor, MulShift;
    OrderedProducts(q, unit, r, m);
    StrictProducts(r, m, q + 1, unit);
    QuotientOf(r as real, Factor(m, unit), unit as real, m as real, q as real);
  }

  lemma QuotientOf(r: real, w: real, one: real, m: real, q: real)
    requires one > 0.0 && w * one == m && q * one <= r * m < (q + 1.0) * one
    ensures q <= r * w < q + 1.0
  {
    Unscaled(r, w, one, m);
    var part := r * w;
    RealCancel(q, part, one);
    if q + 1.0 <= part {
      RealMulMono(q + 1.0, part, one);
    }
  }

  lemma Unscaled(r: real, w: real, one: real, m: real)
    requires w * one == m
    ensures (r * w) * one == r * m
  {
  }

  /** With multipliers of at most one, each bit loses less than a unit. */
  lemma {:induction false} DownFold(t: seq<nat>, unit: nat, i: nat, n: nat, r: nat)
    requires unit > 0 && i <= |t| && forall k :: 0 <= k < |t| ==> t[k] <= unit
    ensures Truncates(r as real, RealFold(t, unit, i, n), (|t| - i) as real, Fold(t, unit, i, n, r) as real)
    decreases |t| - i
  {
    hide Factor, MulShift, Truncates;
    if i == |t| {
      NothingTruncated(r as real);
    } else {
      var rest, w := RealFold(t, unit, i + 1, n / 2), Factor(t[i], unit);
      var k, out := (|t| - (i + 1)) as real, Fold(t, unit, i, n, r) as real;
      if n % 2 == 1 {
        var next := MulShift(r, t[i], unit);
        DownFold(t, unit, i + 1, n / 2, next);
        TruncatedFactor(r, t[i], unit);
        FactorOfOne(t[i], unit);
        DownStep(r as real, w, next as real, rest, RealFold(t, unit, i, n), k, out);
      } else {
        DownFold(t, unit, i + 1, n / 2, r);
        DownKeeps(r as real, rest, k, out);
      }
    }
  }

  /** `out` is r times a fraction, less at most k. */
  ghost predicate Truncates(r: real, exact: real, k: real, out: real) {
    0.0 <= exact <= 1.0 && r * exact - k <= out <= r * exact
  }

  lemma NothingTruncated(r: real)
    ensures Truncates(r, 1.0, 0.0, r)
  {
  }

  lemma DownKeeps(r: real, rest: real, k: real, out: real)
    requires Truncates(r, rest, k, out)
    ensures Truncates(r, rest, k + 1.0, out)
  {
  }

  lemma DownBounds(moved: real, next: real, rest: real, whole: real, k: real, out: real)
    requires next <= moved < next + 1.0 && 0.0 <= rest <= 1.0 && moved * rest == whole
    requires next * rest - k <= out <= next * rest
    ensures whole - (k + 1.0) <= out <= whole
  {
    var kept := next * rest;
    LostBelow(next, moved, rest, kept, whole);
  }

  lemma DownStep(r: real, w: real, next: real, rest: real, exact: real, k: real, out: real)
    requires 0.0 <= w <= 1.0 && next <= r * w < next + 1.0 && exact == w * rest
    requires Truncates(next, rest, k, out)
    ensures Truncates(r, exact, k + 1.0, out)
  {
    FractionOf(w, rest);
    RealAssoc(r, w, rest, r * w, exact);
    DownBounds(r * w, next, rest, r * exact, k, out);
  }

  lemma FactorOfOne(m: nat, unit: nat)
    requires unit > 0
    ensures 0.0 <= Factor(m, unit)
    ensures m <= unit ==> Factor(m, unit) <= 1.0
    ensures unit <= m ==> 1.0 <= Factor(m, unit)
  {
    FactorTimesUnit(m, unit);
    hide Factor;
    var w, one := Factor(m, unit), unit as real;
    RealCancel(0.0, w, one);
    if m <= unit {
      RealCancel(w, 1.0, one);
    }
    if unit <= m {
      RealCancel(1.0, w, one);
    }
  }

  /** `out` is r times a factor of at least one, less at most k parts in the unit. */
  ghost predicate Grows(r: real, exact: real, unit: real, k: real, out: real) {
    1.0 <= exact && (r * exact) * (unit - k) <= out * unit && out <= r * exact
  }

  /** With multipliers of at least one, each bit loses less than one part in the unit. */
  lemma {:induction false} UpFold(t: seq<nat>, unit: nat, i: nat, n: nat, r: nat)
    requires unit > |t| && i <= |t| && unit <= r && forall k :: 0 <= k < |t| ==> unit <= t[k]
    ensures Grows(r as real, RealFold(t, unit, i, n), unit as real, (|t| - i) as real, Fold(t, unit, i, n, r) as real)
    decreases |t| - i
  {
    hide Factor, MulShift, Grows;
    if i == |t| {
      NothingLost(r as real, unit as real);
    } else {
      var rest, w := RealFold(t, unit, i + 1, n / 2), Factor(t[i], unit);
      var k, out := (|t| - (i + 1)) as real, Fold(t, unit, i, n, r) as real;
      if n % 2 == 1 {
        var next := MulShift(r, t[i], unit);
        StaysAbove(r, t[i], unit);
        UpFold(t, unit, i + 1, n / 2, next);
        TruncatedFactor(r, t[i], unit);
        FactorOfOne(t[i], unit);
        UpStep(r as real, w, next as real, rest, RealFold(t, unit, i, n), unit as real, k, out);
      } else {
        UpFold(t, unit, i + 1, n / 2, r);
        UpKeeps(r as real, rest, unit as real, k, out);
      }
    }
  }

  lemma NothingLost(r: real, unit: real)
    ensures Grows(r, 1.0, unit, 0.0, r)
  {
  }

  lemma StaysAbove(r: nat, m: nat, unit: nat)
    requires 0 < unit <= r && unit <= m
    ensures unit <= MulShift(r, m, unit)
  {
    MulMono(unit, r, unit);
    MulMono(unit, m, r);
    FloorAdjoint(unit, r * m, unit);
  }

  lemma UpKeeps(r: real, rest: real, unit: real, k: real, out: real)
    requires 0.0 <= r && Grows(r, rest, unit, k, out)
    ensures Grows(r, rest, unit, k + 1.0, out)
  {
    NonNegative(r, rest);
    RealMulMono(unit - (k + 1.0), unit - k, r * rest);
  }

  lemma LostBelow(next: real, moved: real, rest: real, kept: real, whole: real)
    requires next <= moved < next + 1.0 && 0.0 <= rest && kept == next * rest && whole == moved * rest
    ensures kept <= whole <= kept + rest
  {
    var gap := moved - next;
    Difference(moved, next, gap, rest, whole, kept, gap * rest);
    FractionOf(gap, rest);
  }

  lemma Difference(a: real, b: real, c: real, d: real, ad: real, bd: real, cd: real)
    requires c == a - b && ad == a * d && bd == b * d && cd == c * d
    ensures ad == bd + cd
  {
    RealDistribute(a, b, d);
  }

  lemma UpBounds(moved: real, next: real, rest: real, whole: real, unit: real, k: real, out: real)
    requires 0.0 < unit && 0.0 <= k && k + 1.0 <= unit && 1.0 <= rest
    requires unit <= next <= moved < next + 1.0 && moved * rest == whole
    requires (next * rest) * (unit - k) <= out * unit && out <= next * rest
    ensures whole * (unit - (k + 1.0)) <= out * unit && out <= whole
  {
    var kept := next * rest;
    LostBelow(next, moved, rest, kept, whole);
    UpLoss(whole, kept, rest, unit, k, next);
  }

  lemma UpStep(r: real, w: real, next: real, rest: real, exact: real, unit: real, k: real, out: real)
    requires 0.0 < unit && 1.0 <= w && 0.0 <= k && k + 1.0 <= unit && exact == w * rest
    requires unit <= next <= r * w < next + 1.0
    requires Grows(next, rest, unit, k, out)
    ensures Grows(r, exact, unit, k + 1.0, out)
  {
    RealMulMono(1.0, w, rest);
    RealAssoc(r, w, rest, r * w, exact);
    UpBounds(r * w, next, rest, r * exact, unit, k, out);
  }

  /** Losing `rest` of at least unit times it loses at most one part in the unit. */
  lemma UpLoss(exact: real, kept: real, rest: real, unit: real, k: real, next: real)
    requires 0.0 < unit && 0.0 <= k && k + 1.0 <= unit && 0.0 <= rest && unit <= next
    requires kept == next * rest && kept <= exact <= kept + rest
    ensures exact * (unit - (k + 1.0)) <= kept * (unit - k)
  {
    var left := unit - (k + 1.0);
    RealMulMono(exact, kept + rest, left);
    RealSum(kept, rest, left);
    RealPlusOne(left, kept);
    RealMulMono(left, next, rest);
  }

  // ---- the prices ----

  /** 2^128, the square of a Q64.64 one. */
  const TWO_TO_128: real := 340282366920938463463374607431768211456.0

  /** v is `ideal`, at most 95 parts in ten thousand million under it and 4 above. */
  ghost predicate Close(v: real, ideal: real) {
    9_999_999_905.0 * ideal <= 10_000_000_000.0 * v <= 10_000_000_004.0 * ideal
  }

  /** v is `ideal`, within one part in a hundred million. */
  ghost predicate Within(v: real, ideal: real) {
    99_999_999.0 * ideal <= 100_000_000.0 * v <= 100_000_001.0 * ideal
  }

  /** The price is the square root of 1.0001 to the power of the tick, in Q64.64. */
  ghost predicate IsSqrtPriceOf(price: nat, tick: int) {
    if tick >= 0 then Within(Squared(price as real), TWO_TO_128 * RealPow(1.0001, tick))
    else Reciprocal(Squared(price as real), RealPow(1.0001, -tick))
  }

  /** Two factors of 2^128. */
  ghost predicate Reciprocal(v: real, power: real) {
    Within(v * power, TWO_TO_128)
  }

  lemma WholeFold(t: seq<nat>, unit: nat, num: nat, den: nat, slack: seq<nat>, err: seq<nat>, sum: seq<nat>, n: nat)
    requires Accurate(t, unit, num, den, slack, err, sum) && num > 0 && n < TICK_SPAN
    ensures Near(Squared(RealFold(t, unit, 0, n)), RealPow(Factor(num, den), n), sum[0])
  {
    hide Near, Accurate, Factor, RealPow, Squared, RealFold;
    SpanIsAllBits();
    FoldNear(t, unit, num, den, slack, err, sum, 0, n);
    assert n * Pow2(0) == n;
  }

  lemma SquaresBracket(low: real, exact: real, high: real)
    requires 0.0 <= low <= exact <= high
    ensures Squared(low) <= Squared(exact) <= Squared(high)
  {
    RealTimes(low, exact, low, exact);
    RealTimes(exact, high, exact, high);
  }

  /** A price the table computes for a negative tick, squared: at most what the multipliers' own errors allow above the
      power, and at most nineteen truncated units below it. */
  lemma DownAccurate(t: seq<nat>, num: nat, den: nat, slack: seq<nat>, err: seq<nat>, sum: seq<nat>, n: nat)
    requires Accurate(t, Q64, num, den, slack, err, sum) && num > 0 && n < TICK_SPAN
    requires forall k :: 0 <= k < |t| ==> t[k] <= Q64
    ensures var ratio := TableRatio(t, Q64, n) as real;
            var power := RealPow(Factor(num, den), n);
            && Scale() * Squared(ratio) <= TWO_TO_128 * (power * Up(sum[0]))
            && TWO_TO_128 * (power * Down(sum[0])) <= Scale() * Squared(ratio + 19.0)
  {
    hide Accurate, Factor, RealPow, RealFold, Fold, Squared;
    var exact, ratio := RealFold(t, Q64, 0, n), TableRatio(t, Q64, n) as real;
    TableLength(t, Q64, num, den, slack, err, sum);
    WholeFold(t, Q64, num, den, slack, err, sum, n);
    DownFold(t, Q64, 0, n, Q64);
    SquaresBracket(ratio, Q64 as real * exact, ratio + 19.0);
    SquaredQ64(exact);
  }

  lemma TableLength(t: seq<nat>, unit: nat, num: nat, den: nat, slack: seq<nat>, err: seq<nat>, sum: seq<nat>)
    requires Accurate(t, unit, num, den, slack, err, sum)
    ensures |t| == BITS
  {
  }

  lemma SquaredQ64(x: real)
    ensures Squared(Q64 as real * x) == TWO_TO_128 * Squared(x)
  {
  }

  /** `ratio` squared is `ideal` up to four parts in ten thousand million, but for less than nineteen units of
      truncation in ratio. */
  ghost predicate TruncatedRoot(ratio: nat, ideal: real) {
    && 10_000_000_000.0 * Squared(ratio as real) <= 10_000_000_004.0 * ideal
    && 9_999_999_996.0 * ideal <= 10_000_000_000.0 * Squared(ratio as real + 19.0)
  }

  lemma RootFromParts(ratio: nat, power: real, err: nat)
    requires power > 0.0 && err <= 40_000_000_000
    requires Scale() * Squared(ratio as real) <= TWO_TO_128 * (power * Up(err))
    requires TWO_TO_128 * (power * Down(err)) <= Scale() * Squared(ratio as real + 19.0)
    ensures TruncatedRoot(ratio, TWO_TO_128 * power)
  {
    var above, below := power * Up(err), power * Down(err);
    RealMulMono(Up(err), 100_000_000_040_000_000_000.0, power);
    RealMulMono(99_999_999_960_000_000_000.0, Down(err), power);
    hide Squared, Up, Down;
    assert above <= 100_000_000_040_000_000_000.0 * power;
    assert 99_999_999_960_000_000_000.0 * power <= below;
  }

  /** Raydium's table loop, over every magnitude its bits can express. */
  lemma RaydiumRatioTracks(n: nat)
    requires n < TICK_SPAN
    ensures TruncatedRoot(RaydiumRatio(n), TWO_TO_128 * RealPow(10_000.0 / 10_001.0, n))
  {
    hide Accurate, RealPow, Squared, TruncatedRoot, Up, Down, TableRatio;
    MagicsAccurate();
    DownAccurate(MAGICS, 10_000, 10_001, RAYDIUM_SLACK, RAYDIUM_ERR, RAYDIUM_SUM, n);
    RealPowPositive(10_000.0 / 10_001.0, n);
    RootFromParts(RaydiumRatio(n), RealPow(10_000.0 / 10_001.0, n), RAYDIUM_SUM[0]);
  }

  /** Orca's table loop for negative ticks. */
  lemma OrcaNegativeTracks(n: nat)
    requires n < TICK_SPAN
    ensures TruncatedRoot(TableRatio(NEGATIVE, Q64, n), TWO_TO_128 * RealPow(10_000.0 / 10_001.0, n))
  {
    hide Accurate, RealPow, Squared, TruncatedRoot, Up, Down, TableRatio;
    NegativeAccurate();
    DownAccurate(NEGATIVE, 10_000, 10_001, ORCA_SLACK, ORCA_ERR, ORCA_SUM, n);
    RealPowPositive(10_000.0 / 10_001.0, n);
    RootFromParts(TableRatio(NEGATIVE, Q64, n), RealPow(10_000.0 / 10_001.0, n), ORCA_SUM[0]);
  }

  /** Nineteen units are next to nothing in a ratio a tick in range can have. */
  lemma RootIsClose(ratio: nat, ideal: real)
    requires MIN_SQRT_PRICE <= ratio && TruncatedRoot(ratio, ideal)
    ensures Close(Squared(ratio as real), ideal)
  {
    var r := ratio as real;
    RealMulMono(4_295_048_016.0, r, r);
    NineteenMore(r);
    hide Squared;
  }

  lemma NineteenMore(r: real)
    ensures Squared(r + 19.0) == Squared(r) + 38.0 * r + 361.0
  {
  }

  /** Against 1.0001, whose powers are the reciprocals. */
  lemma PowersReciprocal(n: nat)
    ensures RealPow(10_000.0 / 10_001.0, n) * RealPow(1.0001, n) == 1.0
    ensures RealPow(10_000.0 / 10_001.0, n) > 0.0 && RealPow(1.0001, n) > 0.0
  {
    RealPowReciprocal(10_000.0 / 10_001.0, 1.0001, n);
    RealPowPositive(10_000.0 / 10_001.0, n);
    RealPowPositive(1.0001, n);
  }

  lemma RaydiumRatioInRange(tick: int)
    requires MIN_TICK <= tick <= 0
    ensures MIN_SQRT_PRICE <= RaydiumRatio(-tick)
  {
    hide RaydiumRatio;
    RaydiumPriceBounds();
    if MIN_TICK < tick {
      RaydiumPriceIncreasing(MIN_TICK, tick);
    }
  }

  lemma OrcaRatioInRange(tick: int)
    requires MIN_TICK <= tick < 0
    ensures MIN_SQRT_PRICE <= TableRatio(NEGATIVE, Q64, -tick)
  {
    hide TableRatio;
    OrcaPriceBounds();
    if MIN_TICK < tick {
      OrcaPriceIncreasing(MIN_TICK, tick);
    }
  }

  lemma OtherSide(v: real, x: real, y: real)
    requires y > 0.0 && x * y == 1.0 && Close(v, TWO_TO_128 * x)
    ensures Close(v * y, TWO_TO_128)
  {
    var one := TWO_TO_128 * x;
    RealMulMono(9_999_999_905.0 * one, 10_000_000_000.0 * v, y);
    RealMulMono(10_000_000_000.0 * v, 10_000_000_004.0 * one, y);
    assert one * y == TWO_TO_128 * (x * y);
    assert (10_000_000_000.0 * v) * y == 10_000_000_000.0 * (v * y);
    assert (9_999_999_905.0 * one) * y == 9_999_999_905.0 * (one * y);
    assert (10_000_000_004.0 * one) * y == 10_000_000_004.0 * (one * y);
  }

  lemma CloseIsWithin(v: real, ideal: real)
    requires 0.0 <= ideal && Close(v, ideal)
    ensures Within(v, ideal)
  {
  }

  lemma NextSquare(p: real)
    requires 18_446_744_073_709_551_615.0 <= p
    ensures 10_000_000_000.0 * Squared(p + 1.0) <= 10_000_000_001.0 * Squared(p)
  {
    RealMulMono(30_000_000_000.0, p, p);
  }

  lemma SquareOfProduct(a: real, b: real, ab: real)
    requires ab == a * b
    ensures Squared(ab) == Squared(a) * Squared(b)
    ensures Squared(a) >= 0.0
  {
    RealPairs(a, b, a, b);
  }

  lemma SquareIs(a: real, area: real)
    requires area == a * a
    ensures Squared(a) == area
  {
  }

  lemma ReciprocalBounds(below: real, above: real, v: real, x: real, y: real)
    requires 0.0 <= below && 0.0 <= above && y > 0.0 && x * y == 1.0 && Close(v, TWO_TO_128 * x)
    requires below * v <= TWO_TO_128 * TWO_TO_128 <= above * v
    requires 10_000_000_000.0 * above <= 10_000_000_001.0 * below
    ensures Within(below, TWO_TO_128 * y)
  {
    var area, ideal, vy := TWO_TO_128 * TWO_TO_128, TWO_TO_128 * y, v * y;
    OtherSide(v, x, y);
    ScaledProducts(below, above, v, y, vy, area, ideal * TWO_TO_128);
    NearlyReciprocal(below, above, vy, TWO_TO_128, ideal, below * vy, above * vy, ideal * TWO_TO_128);
  }

  lemma ScaledProducts(below: real, above: real, v: real, y: real, vy: real, area: real, scaled: real)
    requires y > 0.0 && vy == v * y && scaled == area * y && below * v <= area <= above * v
    ensures below * vy <= scaled <= above * vy
  {
    RealMulMono(below * v, area, y);
    RealMulMono(area, above * v, y);
    RealAssoc(below, v, y, below * v, vy);
    RealAssoc(above, v, y, above * v, vy);
  }

  /** With vy close to t, what fits into t*t*y is close to t*y. */
  lemma NearlyReciprocal(below: real, above: real, vy: real, t: real, ideal: real, low: real, high: real, scaled: real)
    requires 0.0 <= below && 0.0 <= above && t > 0.0
    requires 9_999_999_905.0 * t <= 10_000_000_000.0 * vy <= 10_000_000_004.0 * t
    requires low == below * vy && high == above * vy && low <= scaled <= high && scaled == ideal * t
    ensures 9_999_999_905.0 * below <= 10_000_000_000.0 * ideal
    ensures 10_000_000_000.0 * ideal <= 10_000_000_004.0 * above
  {
    ScaleOut(10_000_000_000.0, vy, below, low);
    ScaleOut(10_000_000_000.0, vy, above, high);
    ScaleOut(10_000_000_000.0, t, ideal, scaled);
    RealMulMono(9_999_999_905.0 * t, 10_000_000_000.0 * vy, below);
    ScaleOut(9_999_999_905.0, t, below, below * t);
    RealCancel(9_999_999_905.0 * below, 10_000_000_000.0 * ideal, t);
    RealMulMono(10_000_000_000.0 * vy, 10_000_000_004.0 * t, above);
    ScaleOut(10_000_000_004.0, t, above, above * t);
    RealCancel(10_000_000_000.0 * ideal, 10_000_000_004.0 * above, t);
  }

  lemma ScaleOut(k: real, a: real, b: real, ba: real)
    requires ba == b * a
    ensures (k * a) * b == k * ba == (k * b) * a
  {
  }

  lemma NegativeSide(v: real, n: nat)
    requires Close(v, TWO_TO_128 * RealPow(10_000.0 / 10_001.0, n))
    ensures Reciprocal(v, RealPow(1.0001, n))
  {
    hide RealPow, Close, Reciprocal;
    PowersReciprocal(n);
    Inverted(v, RealPow(10_000.0 / 10_001.0, n), RealPow(1.0001, n));
  }

  lemma Inverted(v: real, x: real, y: real)
    requires y > 0.0 && x * y == 1.0 && Close(v, TWO_TO_128 * x)
    ensures Reciprocal(v, y)
  {
    hide Close, Within;
    OtherSide(v, x, y);
    CloseIsWithin(v * y, TWO_TO_128);
  }

  /** Every Raydium price. */
  lemma RaydiumPriceTracks(tick: int)
    requires InRange(tick)
    ensures IsSqrtPriceOf(RaydiumPrice(tick), tick)
  {
    hide RaydiumRatio, Squared, RealPow, TruncatedRoot, Close, Reciprocal, Within;
    var n := Magnitude(tick);
    RaydiumRatioTracks(n);
    RaydiumRatioInRange(if tick < 0 then tick else -tick);
    RootIsClose(RaydiumRatio(n), TWO_TO_128 * RealPow(10_000.0 / 10_001.0, n));
    if tick < 0 {
      NegativeSide(Squared(RaydiumRatio(n) as real), n);
    } else if tick == 0 {
      RaydiumRatioBound(0);
      OneIsExact(Q64);
    } else {
      RaydiumReciprocal(n);
    }
  }

  lemma OneIsExact(price: nat)
    requires price == Q64
    ensures IsSqrtPriceOf(price, 0)
  {
  }

  /** The reciprocal of a close ratio is close to the reciprocal power. */
  lemma RaydiumReciprocal(n: nat)
    requires n < TICK_SPAN && Close(Squared(RaydiumRatio(n) as real), TWO_TO_128 * RealPow(10_000.0 / 10_001.0, n))
    ensures Within(Squared(FloorDiv(U128MAX, RaydiumRatio(n)) as real), TWO_TO_128 * RealPow(1.0001, n))
  {
    hide RaydiumRatio, Squared, RealPow, Close, Within, FloorDiv;
    var ratio := RaydiumRatio(n);
    var price := FloorDiv(U128MAX, ratio);
    RaydiumRatioBound(n);
    FloorBracket(U128MAX, ratio);
    MulMono(ratio, Q64, Q64 - 1);
    FloorAdjoint(Q64 - 1, U128MAX, ratio);
    ProductAsReal(price, ratio);
    ProductAsReal(price + 1, ratio);
    PowersReciprocal(n);
    var p, q, r := price as real, price as real + 1.0, ratio as real;
    SquaresBracket(p * r, TWO_TO_128, q * r);
    SquareOfProduct(p, r, p * r);
    SquareOfProduct(q, r, q * r);
    SquareIs(TWO_TO_128, TWO_TO_128 * TWO_TO_128);
    NextSquare(p);
    ReciprocalBounds(Squared(p), Squared(q), Squared(r), RealPow(10_000.0 / 10_001.0, n), RealPow(1.0001, n));
  }

  /** A quotient is the last whole number of divisors that fit. */
  lemma FloorBracket(a: nat, b: nat)
    requires b > 0
    ensures FloorDiv(a, b) * b <= a < (FloorDiv(a, b) + 1) * b
  {
    FloorAdjoint(FloorDiv(a, b), a, b);
    FloorAdjoint(FloorDiv(a, b) + 1, a, b);
  }

  /** Orca's table for the other ticks, before the shift to Q64. */
  lemma UpAccurate(n: nat)
    requires n < TICK_SPAN
    ensures var ratio := TableRatio(POSITIVE, Q96, n) as real;
            exists exact: real ::
              && 1.0 <= exact && Near(Squared(exact), RealPow(1.0001, n), ORCA_SUM[0])
              && exact * (Q96 - 19) as real <= ratio <= exact * Q96 as real
  {
    hide Accurate, RealPow, RealFold, Fold, Squared, Near;
    PositiveAccurate();
    WholeFold(POSITIVE, Q96, 10_001, 10_000, ORCA_SLACK, ORCA_ERR, ORCA_SUM, n);
    PositiveAboveOne();
    UpFold(POSITIVE, Q96, 0, n, Q96);
    var exact := RealFold(POSITIVE, Q96, 0, n);
    assert Near(Squared(exact), RealPow(1.0001, n), ORCA_SUM[0]);
  }

  lemma PositiveAboveOne()
    ensures forall k :: 0 <= k < |POSITIVE| ==> Q96 <= POSITIVE[k]
  {
  }

  lemma ShiftedIsClose(p: real, ratio: real, exact: real, power: real, err: nat)
    requires 18_446_744_073_709_551_615.0 <= p && 1.0 <= exact && 0.0 < power && err <= 40_000_000_000
    requires Near(Squared(exact), power, err)
    requires exact * (Q96 - 19) as real <= ratio <= exact * Q96 as real
    requires p * Q32 as real <= ratio <= (p + 1.0) * Q32 as real
    ensures Within(Squared(p), TWO_TO_128 * power)
  {
    var low, high := 18_446_744_073_709_551_616.0 * exact, 10_000_000_000.0 * 18_446_744_073_709_551_616.0 * exact;
    assert p <= low;
    assert high <= 10_000_000_003.0 * p;
    SquaredQ64(exact);
    SquaresBracket(p, low, low);
    SquaresBracket(high, high, 10_000_000_003.0 * p);
    SquaredScales(10_000_000_000.0, low);
    SquaredScales(10_000_000_003.0, p);
    RealMulMono(Up(err), 100_000_000_040_000_000_000.0, power);
    RealMulMono(99_999_999_960_000_000_000.0, Down(err), power);
    hide Squared, Up, Down;
    var above, below := power * Up(err), power * Down(err);
    assert above <= 100_000_000_040_000_000_000.0 * power;
    assert 99_999_999_960_000_000_000.0 * power <= below;
  }

  lemma SquaredScales(k: real, x: real)
    ensures Squared(k * x) == (k * k) * Squared(x)
  {
    RealPairs(k, x, k, x);
  }

  /** Every Orca price. */
  lemma OrcaPriceTracks(tick: int)
    requires InRange(tick)
    ensures IsSqrtPriceOf(OrcaPrice(tick), tick)
  {
    hide TableRatio, Squared, RealPow, TruncatedRoot, Close, Reciprocal, Within;
    if tick < 0 {
      OrcaNegativeTracks(-tick);
      OrcaRatioInRange(tick);
      RootIsClose(OrcaPrice(tick), TWO_TO_128 * RealPow(10_000.0 / 10_001.0, -tick));
      NegativeSide(Squared(OrcaPrice(tick) as real), -tick);
    } else {
      OrcaPositive(tick);
    }
  }

  lemma OrcaPositive(n: nat)
    requires n < TICK_SPAN
    ensures Within(Squared(OrcaPrice(n) as real), TWO_TO_128 * RealPow(1.0001, n))
  {
    hide TableRatio, Squared, RealPow, Near, Within;
    UpAccurate(n);
    var ratio := TableRatio(POSITIVE, Q96, n);
    var exact: real :|
      && 1.0 <= exact && Near(Squared(exact), RealPow(1.0001, n), ORCA_SUM[0])
      && exact * (Q96 - 19) as real <= ratio as real <= exact * Q96 as real;
    var price := OrcaPrice(n);
    FloorBracket(ratio, Q32);
    FloorAdjoint(Q64 - 1, ratio, Q32);
    PowersReciprocal(n);
    hide OrcaPrice;
    ShiftedIsClose(price as real, ratio as real, exact, RealPow(1.0001, n), ORCA_SUM[0]);
  }
}
