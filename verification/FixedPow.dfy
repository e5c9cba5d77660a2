/** The Q64.64 power both Meteora venues price with: truncated square-and-multiply over 19 exponent
    bits. What the truncations cost, and why they never upset the order of the exponents. */
module FixedPow {
  import opened Reals
  import opened Rounding
  import opened Wrappers
  import opened MachineIntegers
  import opened BitFold

  const MAX_EXPONENTIAL: nat := 0x80000
  const EXPONENT_BITS: nat := 19
  const MIN_INT32: int := -0x8000_0000

  datatype Error = MathOverflow | DivideByZero | TypeCastFailed

  function MulChecked(a: nat, b: nat): Result<nat, Error> {
    if a > U128MAX || b > U128MAX || a * b > U128MAX then Err(MathOverflow) else Ok(a * b)
  }

  // ---- what the loop computes ----

  /** base^(2^i), truncated after every squaring. */
  function Squared(base: nat, i: nat): nat {
    if i == 0 then base else FloorDiv(Squared(base, i - 1) * Squared(base, i - 1), Q64)
  }

  function Squares(base: nat): (t: seq<nat>)
    ensures |t| == EXPONENT_BITS && forall i :: 0 <= i < EXPONENT_BITS ==> t[i] == Squared(base, i)
  {
    seq(EXPONENT_BITS, i requires 0 <= i < EXPONENT_BITS => Squared(base, i))
  }

  /** The product of the squares the exponent's bits select, before the final inversion. */
  function Product(base: nat, n: nat): nat {
    Fold(Squares(base), Q64, 0, n, Q64)
  }

  /** A base of at least one is raised through its reciprocal. */
  function Normalised(base: nat): nat {
    if base >= Q64 then FloorDiv(U128MAX, base) else base
  }

  predicate Inverts(base: nat, exp: int) {
    (exp < 0) != (base >= Q64)
  }

  /** The contract of Pow. */
  function Power(base: nat, exp: int): Result<nat, Error> {
    if base > U128MAX then Err(MathOverflow)
    else if exp == 0 then Ok(Q64)
    else
      var n: nat := if exp < 0 then -exp else exp;
      if n >= MAX_EXPONENTIAL then Err(MathOverflow)
      else
        var product := Product(Normalised(base), n);
        if product == 0 then Err(MathOverflow)
        else Ok(if Inverts(base, exp) then FloorDiv(U128MAX, product) else product)
  }

  lemma NormalisedBelowOne(base: nat)
    ensures Normalised(base) < Q64
  {
    if base >= Q64 {
      FloorAdjoint(Q64, U128MAX, base);
      MulMono(Q64, base, Q64);
    }
  }

  /** Products of fractions stay fractions, so no checked multiplication can fail. */
  lemma FractionsMultiply(a: nat, b: nat)
    requires a <= Q64 && b < Q64
    ensures MulChecked(a, b) == Ok(a * b)
    ensures FloorDiv(a * b, Q64) <= b
  {
    MulMono(a, Q64, b);
    FloorAdjoint(b + 1, a * b, Q64);
  }

  /** One bit of the loop. */
  lemma NextFactor(base: nat, absExp: nat, i: nat, result: nat)
    requires i < EXPONENT_BITS
    ensures Fold(Squares(base), Q64, i, FloorDiv(absExp, Pow2(i)), result)
         == Fold(Squares(base), Q64, i + 1, FloorDiv(absExp, Pow2(i + 1)),
                 if BitSet(absExp, i) then FloorDiv(result * Squared(base, i), Q64) else result)
  {
    hide Squared;
    NextBits(absExp, i);
  }

  lemma NextSquared(base: nat, i: nat)
    ensures Squared(base, i + 1) == FloorDiv(Squared(base, i) * Squared(base, i), Q64)
  {
  }

  lemma StartOfLoop(base: nat, n: nat)
    ensures Squared(base, 0) == base
    ensures Fold(Squares(base), Q64, 0, FloorDiv(n, Pow2(0)), Q64) == Product(base, n)
  {
    FloorUnique(n, n, 1);
  }

  lemma EndOfLoop(base: nat, n: nat, result: nat)
    ensures Fold(Squares(base), Q64, EXPONENT_BITS, n, result) == result
  {
  }

  /** The loop of Pow. Both checked multiplications are read as successes, which they are proved to be. */
  method SquareAndMultiply(base: nat, absExp: nat) returns (result: nat)
    requires base < Q64
    ensures result == Product(base, absExp)
  {
    hide Fold, Squared, Squares, BitSet, MulChecked, Product, Pow2, FloorDiv;
    var squaredBase := base;
    result := Q64;
    StartOfLoop(base, absExp);
    var i: nat := 0;
    while i < EXPONENT_BITS
      invariant i <= EXPONENT_BITS && result <= Q64
      invariant squaredBase == Squared(base, if i < EXPONENT_BITS then i else EXPONENT_BITS - 1) < Q64
      invariant Fold(Squares(base), Q64, i, FloorDiv(absExp, Pow2(i)), result) == Product(base, absExp)
    {
      NextFactor(base, absExp, i, result);
      NextSquared(base, i);
      if BitSet(absExp, i) {
        FractionsMultiply(result, squaredBase);
        result := FloorDiv(MulChecked(result, squaredBase).value, Q64);
      }
      if i < EXPONENT_BITS - 1 {
        FractionsMultiply(squaredBase, squaredBase);
        squaredBase := FloorDiv(MulChecked(squaredBase, squaredBase).value, Q64);
      }
      i := i + 1;
    }
    EndOfLoop(base, FloorDiv(absExp, Pow2(EXPONENT_BITS)), result);
  }

  /** Pow as the program runs it. */
  method Pow(base: nat, exp: int) returns (power: Result<nat, Error>)
    requires MIN_INT32 <= exp < 0x8000_0000
    ensures power == Power(base, exp)
  {
    hide Product;
    if base > U128MAX {
      return Err(MathOverflow);
    }
    var invert := exp < 0;
    if exp == 0 {
      return Ok(Q64);
    }
    var absExp := Uint32(exp);
    if invert {
      if exp == MIN_INT32 {
        return Err(MathOverflow);
      }
      absExp := Uint32(-exp);
    }
    if absExp >= MAX_EXPONENTIAL {
      return Err(MathOverflow);
    }
    NormalisedBelowOne(base);
    var squaredBase := base;
    if squaredBase >= Q64 {
      squaredBase := FloorDiv(U128MAX, squaredBase);
      invert := !invert;
    }
    var result := SquareAndMultiply(squaredBase, absExp);
    if result == 0 {
      return Err(MathOverflow);
    }
    if invert {
      result := FloorDiv(U128MAX, result);
    }
    return Ok(result);
  }

  // ---- the order of the exponents ----

  /** The product of the first i squares: what a carry into bit i replaces. */
  function AllSet(base: nat, i: nat): nat {
    if i == 0 then Q64 else FloorDiv(AllSet(base, i - 1) * Squared(base, i - 1), Q64)
  }

  /** Setting bit i alone never gives more than setting all the lower ones. */
  lemma {:induction false} SquareBelowAllSet(base: nat, i: nat)
    requires base < Q64
    ensures Squared(base, i) <= AllSet(base, i)
  {
    if i > 0 {
      SquareBelowAllSet(base, i - 1);
      MulShiftMono(Squared(base, i - 1), AllSet(base, i - 1), Squared(base, i - 1), Q64);
    }
  }

  /** One more in the exponent never raises the product of a fraction, however the carries run. */
  lemma NextExponentLowers(base: nat, n: nat)
    requires base < Q64 && n + 1 < Pow2(EXPONENT_BITS)
    ensures Product(base, n + 1) <= Product(base, n)
  {
    hide Squared, AllSet, Pow2, Fold, FloorDiv;
    var need := seq(EXPONENT_BITS + 1, i => 0);
    var ones := seq(EXPONENT_BITS + 1, i requires 0 <= i => AllSet(base, i));
    forall i | 0 <= i < EXPONENT_BITS
      ensures Squared(base, i) <= ones[i] && ones[i + 1] * Q64 <= ones[i] * Squared(base, i) < ones[i + 1] * Q64 + Q64
    {
      SquareBelowAllSet(base, i);
      AllSetStep(base, i);
    }
    assert AllOnes(Squares(base), Q64, ones) by { AllSetStep(base, 0); }
    assert Survives(Squares(base), Q64, need);
    assert CarriesDown(Squares(base), ones, need);
    CarryDown(Squares(base), Q64, ones, need, 0, n);
    AllSetStep(base, 0);
  }

  lemma AllSetStep(base: nat, i: nat)
    ensures AllSet(base, 0) == Q64
    ensures AllSet(base, i + 1) == FloorDiv(AllSet(base, i) * Squared(base, i), Q64)
  {
  }

  /** Pow is antitone in the exponent of a fraction. */
  lemma {:induction false} ProductAntitone(base: nat, m: nat, n: nat)
    requires base < Q64 && m <= n < MAX_EXPONENTIAL
    ensures Product(base, n) <= Product(base, m)
    decreases n - m
  {
    hide Product;
    if m < n {
      AllExponents();
      NextExponentLowers(base, m);
      ProductAntitone(base, m + 1, n);
    }
  }

  lemma AllExponents()
    ensures Pow2(EXPONENT_BITS) == MAX_EXPONENTIAL
  {
    assert Pow2(5) == 32;
    assert Pow2(10) == 1024;
    assert Pow2(15) == 32768;
  }

  lemma {:induction false} NoBits(base: nat, i: nat, r: nat)
    requires i <= EXPONENT_BITS
    ensures Fold(Squares(base), Q64, i, 0, r) == r
    decreases EXPONENT_BITS - i
  {
    if i < EXPONENT_BITS {
      NoBits(base, i + 1, r);
    }
  }

  lemma ZerothAndFirst(base: nat)
    ensures Product(base, 0) == Q64 && Product(base, 1) == base
  {
    NoBits(base, 0, Q64);
    MulShiftUnit(base, Q64);
    NoBits(base, 1, base);
  }

  lemma ReciprocalOrder(x: nat, y: nat)
    requires 0 < x <= y
    ensures FloorDiv(U128MAX, y) <= FloorDiv(U128MAX, x)
    ensures x < Q64 ==> Q64 <= FloorDiv(U128MAX, x)
  {
    var q := FloorDiv(U128MAX, y);
    MulMono(x, y, q);
    FloorAdjoint(q, U128MAX, x);
    if x < Q64 {
      MulMono(x, Q64 - 1, Q64);
      FloorAdjoint(Q64, U128MAX, x);
    }
  }

  /** The power of a fraction to a signed exponent. */
  function Signed(b: nat, exp: int): nat
    requires Product(b, if exp < 0 then -exp else exp) > 0
  {
    if exp < 0 then FloorDiv(U128MAX, Product(b, -exp)) else Product(b, exp)
  }

  lemma SignedAntitone(b: nat, m: int, n: int)
    requires b < Q64 && -m < MAX_EXPONENTIAL && m <= n < MAX_EXPONENTIAL
    requires Product(b, if m < 0 then -m else m) > 0 && Product(b, if n < 0 then -n else n) > 0
    ensures Signed(b, n) <= Signed(b, m)
  {
    hide Product;
    ZerothAndFirst(b);
    if m >= 0 {
      ProductAntitone(b, m, n);
    } else if n < 0 {
      ProductAntitone(b, -n, -m);
      ReciprocalOrder(Product(b, -m), Product(b, -n));
    } else {
      ProductAntitone(b, 1, -m);
      ReciprocalOrder(Product(b, -m), b);
      ProductAntitone(b, 0, n);
    }
  }

  /** A power of a base of at least one never falls as the exponent grows, and a power of a fraction
      never rises, through the reciprocals and the sign change, wherever both calls succeed. */
  lemma PowerMonotone(base: nat, m: int, n: int)
    requires m <= n && Power(base, m).Ok? && Power(base, n).Ok?
    ensures if base >= Q64 then Power(base, m).value <= Power(base, n).value
            else Power(base, n).value <= Power(base, m).value
  {
    hide Product;
    NormalisedBelowOne(base);
    ZerothAndFirst(Normalised(base));
    if base >= Q64 {
      SignedAntitone(Normalised(base), -n, -m);
    } else {
      SignedAntitone(Normalised(base), m, n);
    }
  }

  // ---- what the truncations cost ----

  const UNIT: real := 18446744073709551616.0

  /** r stands for x^n in Q64.64, too low by at most `err` units. */
  ghost predicate Approximates(r: nat, x: real, n: nat, err: real) {
    UNIT * RealPow(x, n) - err <= r as real <= UNIT * RealPow(x, n)
  }

  /** The real inequality behind a truncated product of two approximations. */
  lemma ProductError(r: real, s: real, u: real, v: real, c: real, d: real)
    requires 0.0 <= r <= u <= UNIT && 0.0 <= s <= v <= UNIT
    requires u - c <= r && v - d <= s
    ensures r * s <= u * v
    ensures u * v - UNIT * (c + d) <= r * s
  {
    RealMulMono(r, u, s);
    RealMulMono(s, v, u);
    assert u * v - r * s == u * (v - s) + s * (u - r);
    RealMulMono(u, UNIT, v - s);
    RealMulMono(s, UNIT, u - r);
  }

  /** Multiplying and truncating adds the two errors and less than one unit. */
  lemma TruncatedProduct(r: nat, s: nat, x: real, m: nat, n: nat, c: real, d: real)
    requires 0.0 <= x <= 1.0 && Approximates(r, x, m, c) && Approximates(s, x, n, d)
    ensures Approximates(FloorDiv(r * s, Q64), x, m + n, c + d + 1.0)
  {
    hide RealPow;
    RealPowFraction(x, m);
    RealPowFraction(x, n);
    RealPowAdd(x, m, n);
    var u, v := UNIT * RealPow(x, m), UNIT * RealPow(x, n);
    ProductError(r as real, s as real, u, v, c, d);
    var q := FloorDiv(r * s, Q64);
    assert (r * s) as real == (r as real) * (s as real);
    assert (q * Q64) as real == (q as real) * UNIT;
    assert u * v == UNIT * (UNIT * RealPow(x, m + n));
  }

  function Fraction(base: nat): real {
    base as real / UNIT
  }

  /** Squaring i times loses less than 2^i units. */
  lemma {:induction false} SquaredError(base: nat, i: nat)
    requires base < Q64
    ensures Approximates(Squared(base, i), Fraction(base), Pow2(i), (Pow2(i) - 1) as real)
  {
    var x := Fraction(base);
    if i == 0 {
      assert RealPow(x, 1) == x * RealPow(x, 0) == x;
    } else {
      hide RealPow;
      SquaredError(base, i - 1);
      var err := (Pow2(i - 1) - 1) as real;
      TruncatedProduct(Squared(base, i - 1), Squared(base, i - 1), x, Pow2(i - 1), Pow2(i - 1), err, err);
    }
  }

  /** What has been lost once the exponent's low bits make up m: less than m units. */
  function Lost(m: nat): real {
    if m == 0 then 0.0 else (m - 1) as real
  }

  /** r stands for base^n, having lost less than n units. */
  ghost predicate Within(r: nat, base: nat, n: nat) {
    Approximates(r, Fraction(base), n, Lost(n))
  }

  /** The exponent with low bits m and bits n from bit i on. */
  function Exponent(m: nat, n: nat, i: nat): nat {
    m + n * Pow2(i)
  }

  lemma FactorError(base: nat, i: nat, r: nat, m: nat)
    requires base < Q64 && Within(r, base, m)
    ensures Within(FloorDiv(r * Squared(base, i), Q64), base, m + Pow2(i))
  {
    hide Squared, Pow2;
    SquaredError(base, i);
    if m == 0 {
      MulShiftUnit(Squared(base, i), Q64);
    } else {
      hide RealPow;
      TruncatedProduct(r, Squared(base, i), Fraction(base), m, Pow2(i), Lost(m), (Pow2(i) - 1) as real);
    }
  }

  lemma {:induction false} FoldError(base: nat, i: nat, n: nat, r: nat, m: nat)
    requires base < Q64 && i <= EXPONENT_BITS && n < Pow2(EXPONENT_BITS - i)
    requires Within(r, base, m)
    ensures Within(Fold(Squares(base), Q64, i, n, r), base, Exponent(m, n, i))
    decreases EXPONENT_BITS - i
  {
    hide Squared, Within, FloorDiv, Pow2, Exponent;
    if i < EXPONENT_BITS {
      PowerDoubles(EXPONENT_BITS - i - 1);
      BitsAddUp(m, n, i);
      if n % 2 == 1 {
        FactorError(base, i, r, m);
        FoldError(base, i + 1, n / 2, FloorDiv(r * Squared(base, i), Q64), m + Pow2(i));
      } else {
        FoldError(base, i + 1, n / 2, r, m);
      }
    } else {
      NoMoreBits(m, n);
    }
  }

  lemma NoMoreBits(m: nat, n: nat)
    requires n < Pow2(0)
    ensures n == 0 && forall i :: Exponent(m, 0, i) == m
  {
  }

  lemma PowerDoubles(i: nat)
    ensures Pow2(i + 1) == 2 * Pow2(i)
    ensures Pow2(0) == 1
  {
  }

  /** Taking the low bit off an exponent. */
  lemma BitsAddUp(m: nat, n: nat, i: nat)
    ensures Exponent(m, n, i) == Exponent(if n % 2 == 1 then m + Pow2(i) else m, n / 2, i + 1)
  {
    var p := Pow2(i);
    assert n == 2 * (n / 2) + n % 2;
    Distribute(p, 2 * (n / 2), n % 2);
    MulAssoc(n / 2, 2, p);
  }

  /** The error bound of Pow before the final inversion: for a fraction b/2^64 and an exponent
      0 < n < 2^19 the product never exceeds 2^64 * (b/2^64)^n and falls short of it by less than n. */
  lemma ProductErrorBound(base: nat, n: nat)
    requires base < Q64 && 0 < n < MAX_EXPONENTIAL
    ensures UNIT * RealPow(Fraction(base), n) - (n - 1) as real <= Product(base, n) as real
    ensures Product(base, n) as real <= UNIT * RealPow(Fraction(base), n)
  {
    AllExponents();
    hide Squared, Fold, Squares;
    assert Approximates(Q64, Fraction(base), 0, Lost(0));
    assert Exponent(0, n, 0) == n;
    FoldError(base, 0, n, Q64, 0);
  }
}
