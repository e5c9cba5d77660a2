/** Real powers and the real inequalities that error bounds are made of. */
module Reals {
  function RealPow(x: real, n: nat): real {
    if n == 0 then 1.0 else x * RealPow(x, n - 1)
  }

  lemma {:induction false} RealPowAdd(x: real, m: nat, n: nat)
    ensures RealPow(x, m + n) == RealPow(x, m) * RealPow(x, n)
  {
    if m > 0 {
      RealPowAdd(x, m - 1, n);
      assert x * (RealPow(x, m - 1) * RealPow(x, n)) == (x * RealPow(x, m - 1)) * RealPow(x, n);
    }
  }

  lemma {:induction false} RealPowFraction(x: real, n: nat)
    requires 0.0 <= x <= 1.0
    ensures 0.0 <= RealPow(x, n) <= 1.0
  {
    if n > 0 {
      RealPowFraction(x, n - 1);
      FractionOf(x, RealPow(x, n - 1));
    }
  }

  lemma RealMulMono(a: real, b: real, c: real)
    requires 0.0 <= c && a <= b
    ensures a * c <= b * c
  {
  }

  lemma FractionOf(x: real, y: real)
    requires 0.0 <= x <= 1.0 && 0.0 <= y
    ensures 0.0 <= x * y <= y
  {
    RealMulMono(x, 1.0, y);
  }

  lemma {:induction false} RealPowPositive(x: real, n: nat)
    requires x > 0.0
    ensures RealPow(x, n) > 0.0
  {
    if n > 0 {
      RealPowPositive(x, n - 1);
    }
  }

  lemma {:induction false} RealPowReciprocal(x: real, y: real, n: nat)
    requires x * y == 1.0
    ensures RealPow(x, n) * RealPow(y, n) == 1.0
  {
    if n > 0 {
      RealPowReciprocal(x, y, n - 1);
      var p, q := RealPow(x, n - 1), RealPow(y, n - 1);
      assert (x * p) * (y * q) == (x * y) * (p * q);
    }
  }

  lemma RealTimes(a: real, b: real, c: real, d: real)
    requires 0.0 <= a <= b && 0.0 <= c <= d
    ensures 0.0 <= a * c <= b * d
  {
    RealMulMono(a, b, c);
    RealMulMono(c, d, b);
  }

  lemma RealDistribute(a: real, b: real, c: real)
    ensures (a - b) * c == a * c - b * c
  {
  }

  lemma RealCancel(a: real, b: real, c: real)
    requires c > 0.0 && a * c <= b * c
    ensures a <= b
  {
    if b < a {
      RealDistribute(a, b, c);
      RealPositive(a - b, c);
    }
  }

  lemma RealPositive(a: real, b: real)
    requires a > 0.0 && b > 0.0
    ensures a * b > 0.0
  {
  }

  lemma NonNegative(a: real, b: real)
    requires 0.0 <= a && 0.0 <= b
    ensures 0.0 <= a * b
  {
  }

  lemma RealPairs(a: real, b: real, c: real, d: real)
    ensures (a * b) * (c * d) == (a * c) * (b * d)
  {
  }

  lemma RealAssoc(a: real, b: real, c: real, ab: real, bc: real)
    requires ab == a * b && bc == b * c
    ensures ab * c == a * bc
  {
  }

  lemma RealSum(a: real, b: real, c: real)
    ensures (a + b) * c == a * c + b * c
  {
  }

  lemma RealPlusOne(a: real, b: real)
    ensures (a + 1.0) * b == a * b + b
  {
  }

  lemma ProductAsReal(a: nat, b: nat)
    ensures (a * b) as real == a as real * b as real
  {
  }

  lemma OrderedProducts(a: nat, b: nat, c: nat, d: nat)
    requires a * b <= c * d
    ensures a as real * b as real <= c as real * d as real
  {
    ProductAsReal(a, b);
    ProductAsReal(c, d);
  }

  lemma StrictProducts(a: nat, b: nat, c: nat, d: nat)
    requires a * b < c * d
    ensures a as real * b as real < c as real * d as real
  {
    ProductAsReal(a, b);
    ProductAsReal(c, d);
  }
}
