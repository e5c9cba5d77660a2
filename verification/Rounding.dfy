/** Floor and ceiling division on naturals, stated through their adjunctions.
    Every later rounding argument goes through these lemmas, so that no other proof has to
    reason about `/` and `%` with a variable divisor. */
module Rounding {
  /** 2^64, the unit of the Q64.64 fixed-point format. */
  const Q64: nat := 0x1_0000_0000_0000_0000
  const U64MAX: nat := 0xFFFF_FFFF_FFFF_FFFF
  const U128MAX: nat := 0xFFFF_FFFF_FFFF_FFFF_FFFF_FFFF_FFFF_FFFF

  function FloorDiv(n: nat, d: nat): (q: nat)
    requires d > 0
    ensures q * d <= n < q * d + d
  {
    assert n == (n / d) * d + n % d;
    n / d
  }

  /** Quotient and remainder, one more when the remainder is not zero. */
  function CeilDiv(n: nat, d: nat): (q: nat)
    requires d > 0
    ensures n <= q * d < n + d
  {
    assert n == (n / d) * d + n % d;
    if n % d == 0 then n / d else n / d + 1
  }

  lemma MulMono(a: nat, b: nat, c: nat)
    requires a <= b
    ensures a * c <= b * c
    ensures c * a <= c * b
  {
    assert b * c == a * c + (b - a) * c;
  }

  lemma OrderedBy(x: nat, y: nat, q: nat)
    requires q > 0
    ensures x * q <= y * q <==> x <= y
  {
    if y < x {
      MulMono(y + 1, x, q);
      Distribute(q, y, 1);
    } else {
      MulMono(x, y, q);
    }
  }

  lemma Distribute(a: int, b: int, c: int)
    ensures a * (b + c) == a * b + a * c
    ensures (b + c) * a == b * a + c * a
    ensures a * (b - c) == a * b - a * c
    ensures (b - c) * a == b * a - c * a
  {
  }

  lemma MulAssoc(a: nat, b: nat, c: nat)
    ensures a * (b * c) == a * b * c
  {
  }

  /** k <= floor(n/d) exactly when k*d <= n. */
  lemma FloorAdjoint(k: nat, n: nat, d: nat)
    requires d > 0
    ensures k <= FloorDiv(n, d) <==> k * d <= n
  {
    var q := FloorDiv(n, d);
    if k <= q {
      MulMono(k, q, d);
    } else {
      MulMono(q + 1, k, d);
      assert (q + 1) * d == q * d + d;
    }
  }

  /** ceil(n/d) <= k exactly when n <= k*d. */
  lemma CeilAdjoint(n: nat, d: nat, k: nat)
    requires d > 0
    ensures CeilDiv(n, d) <= k <==> n <= k * d
  {
    var q := CeilDiv(n, d);
    if q <= k {
      MulMono(q, k, d);
    } else {
      MulMono(k + 1, q, d);
      assert (k + 1) * d == k * d + d;
    }
  }

  lemma FloorMono(m: nat, n: nat, d: nat)
    requires d > 0 && m <= n
    ensures FloorDiv(m, d) <= FloorDiv(n, d)
  {
    FloorAdjoint(FloorDiv(m, d), n, d);
  }

  lemma CeilMono(m: nat, n: nat, d: nat)
    requires d > 0 && m <= n
    ensures CeilDiv(m, d) <= CeilDiv(n, d)
  {
    CeilAdjoint(m, d, CeilDiv(n, d));
  }

  /** floor(floor(n/b)/a) == floor(n/(a*b)). */
  lemma FloorNested(n: nat, b: nat, a: nat)
    requires a > 0 && b > 0
    ensures a * b > 0
    ensures FloorDiv(FloorDiv(n, b), a) == FloorDiv(n, a * b)
  {
    Positive(a, b);
    FloorNestedAt(n, b, a, FloorDiv(FloorDiv(n, b), a));
    FloorNestedAt(n, b, a, FloorDiv(n, a * b));
  }

  lemma FloorNestedAt(n: nat, b: nat, a: nat, k: nat)
    requires a > 0 && b > 0 && a * b > 0
    ensures k <= FloorDiv(FloorDiv(n, b), a) <==> k <= FloorDiv(n, a * b)
  {
    FloorAdjoint(k, FloorDiv(n, b), a);
    FloorAdjoint(k * a, n, b);
    FloorAdjoint(k, n, a * b);
    MulAssoc(k, a, b);
  }

  /** ceil(ceil(n/b)/a) == ceil(n/(a*b)): the two-step ceiling rounds exactly like the single one. */
  lemma CeilNested(n: nat, b: nat, a: nat)
    requires a > 0 && b > 0
    ensures a * b > 0
    ensures CeilDiv(CeilDiv(n, b), a) == CeilDiv(n, a * b)
  {
    Positive(a, b);
    CeilNestedAt(n, b, a, CeilDiv(CeilDiv(n, b), a));
    CeilNestedAt(n, b, a, CeilDiv(n, a * b));
  }

  lemma CeilNestedAt(n: nat, b: nat, a: nat, k: nat)
    requires a > 0 && b > 0 && a * b > 0
    ensures CeilDiv(CeilDiv(n, b), a) <= k <==> CeilDiv(n, a * b) <= k
  {
    CeilAdjoint(CeilDiv(n, b), a, k);
    CeilAdjoint(n, b, k * a);
    CeilAdjoint(n, a * b, k);
    MulAssoc(k, a, b);
  }

  lemma Positive(a: nat, b: nat)
    requires a > 0 && b > 0
    ensures a * b > 0
  {
  }

  /** A difference of floors is at least the floor of the difference. */
  lemma FloorGap(m: nat, n: nat, d: nat)
    requires d > 0
    ensures FloorDiv(m, d) + FloorDiv(n, d) <= FloorDiv(m + n, d)
  {
    var p, q := FloorDiv(m, d), FloorDiv(n, d);
    assert (p + q) * d == p * d + q * d;
    FloorAdjoint(p + q, m + n, d);
  }

  lemma FloorUnique(q: nat, n: nat, d: nat)
    requires d > 0
    requires q * d <= n < q * d + d
    ensures FloorDiv(n, d) == q
  {
    FloorAdjoint(q, n, d);
    FloorAdjoint(q + 1, n, d);
    assert (q + 1) * d == q * d + d;
  }

  // ---- proportional fees: rate is out of denom, with rate < denom ----

  /** What is left of `gross` after a fee taken from it, rounding against the payer. */
  lemma FeeOffGross(gross: nat, rate: nat, denom: nat)
    requires rate < denom
    ensures CeilDiv(gross * rate, denom) <= gross
    ensures gross - CeilDiv(gross * rate, denom) == FloorDiv(gross * (denom - rate), denom)
  {
    MulMono(rate, denom, gross);
    CeilAdjoint(gross * rate, denom, gross);
    var fee := CeilDiv(gross * rate, denom);
    var net: nat := gross - fee;
    assert gross * (denom - rate) == gross * denom - gross * rate;
    assert net * denom == gross * denom - fee * denom;
    FloorUnique(net, gross * (denom - rate), denom);
  }

  /** The two ways of charging a proportional fee are adjoint: `net` is affordable out of `gross`
      exactly when `net` plus the fee grossed up from `net` fits in `gross`. */
  lemma FeeAdjoint(net: nat, gross: nat, rate: nat, denom: nat)
    requires rate < denom
    ensures net <= FloorDiv(gross * (denom - rate), denom)
       <==> net + CeilDiv(net * rate, denom - rate) <= gross
  {
    var keep: nat := denom - rate;
    FloorAdjoint(net, gross * keep, denom);
    Distribute(net, keep, rate);
    if net <= gross {
      var room: nat := gross - net;
      CeilAdjoint(net * rate, keep, room);
      Distribute(keep, net, room);
    } else {
      MulMono(gross + 1, net, keep);
      Distribute(keep, gross, 1);
    }
  }

  /** Taking a proportional fee is monotone in the amount it is taken from. */
  lemma NetMono(x: nat, y: nat, rate: nat, denom: nat)
    requires rate < denom && x <= y
    ensures FloorDiv(x * (denom - rate), denom) <= FloorDiv(y * (denom - rate), denom)
  {
    MulMono(x, y, denom - rate);
    FloorMono(x * (denom - rate), y * (denom - rate), denom);
  }

  /** The whole part of keep/denom of an amount: what a fee taken out of it leaves. */
  predicate IsShare(part: nat, amount: nat, keep: int, denom: nat) {
    part * denom <= amount * keep < (part + 1) * denom
  }

  /** The least amount of which keep/denom is at least `part`: what to pay for a net amount and its fee. */
  predicate IsLeastGross(gross: nat, part: nat, keep: int, denom: nat) {
    part * denom <= gross * keep && (gross == 0 || (gross - 1) * keep < part * denom)
  }

  lemma FloorIsShare(amount: nat, keep: nat, denom: nat)
    requires denom > 0
    ensures IsShare(FloorDiv(amount * keep, denom), amount, keep, denom)
  {
    Distribute(denom, FloorDiv(amount * keep, denom), 1);
  }

  lemma GrossUpIsLeast(net: nat, rate: nat, denom: nat)
    requires rate < denom
    ensures IsLeastGross(net + CeilDiv(net * rate, denom - rate), net, denom - rate, denom)
  {
    var keep, fee := denom - rate, CeilDiv(net * rate, denom - rate);
    Distribute(keep, net, fee);
    Distribute(net, keep, rate);
    Distribute(keep, net + fee, 1);
  }

  // ---- quadratic surcharges ----

  /** A rate that pays a base rate and, out of `scale`, a surcharge quadratic in the distance crossed. */
  predicate Covers(rate: nat, base: nat, control: nat, crossed: nat, scale: nat) {
    base <= rate && control * (crossed * crossed) <= (rate - base) * scale
  }

  /** A surcharge rounded up and capped on its own and again with the base: below the cap, the least rate that
      covers. */
  lemma CappedSurcharge(base: nat, control: nat, crossed: nat, scale: nat, cap: nat, rate: nat)
    requires scale > 0 && rate < cap
    ensures var surcharge := CeilDiv(control * (crossed * crossed), scale);
            var total := base + if surcharge > cap then cap else surcharge;
            (if total > cap then cap else total) <= rate <==> Covers(rate, base, control, crossed, scale)
  {
    if base <= rate {
      CeilAdjoint(control * (crossed * crossed), scale, rate - base);
    }
  }
}
