/** Go's fixed-width integers where the width or the rounding of a division shows. */
module MachineIntegers {
  import opened Rounding

  const TWO32: nat := 0x1_0000_0000

  /** Division truncating towards zero. */
  function TruncDiv(n: int, d: int): int
    requires d > 0
  {
    if n >= 0 then n / d else -((-n) / d)
  }

  function TruncMod(n: int, d: int): int
    requires d > 0
  {
    n - TruncDiv(n, d) * d
  }

  /** A value stored in an int32. */
  function Int32(n: int): int {
    (n + 0x8000_0000) % TWO32 - 0x8000_0000
  }

  function Uint32(n: int): nat {
    n % TWO32
  }

  function Uint64(n: int): nat {
    n % Q64
  }

  /** How far apart two indexes are. */
  function Distance(a: int, b: int): nat {
    if a < b then b - a else a - b
  }

  /** Stored differences of less than 2^31 lose nothing. */
  lemma DistanceFits(a: int, b: int)
    requires Distance(a, b) < 0x8000_0000
    ensures var delta := Int32(a - b);
            var distance := if delta < 0 then Int32(-delta) else delta;
            distance == Distance(a, b) == Uint32(distance)
  {
    Int32Exact(a - b);
    Int32Exact(b - a);
    hide Int32;
  }

  lemma Int32Exact(n: int)
    requires -0x8000_0000 <= n < 0x8000_0000
    ensures Int32(n) == n
  {
  }

  lemma Uint32Exact(n: nat)
    requires n < TWO32
    ensures Uint32(n) == n
  {
  }

  lemma Uint64Exact(n: nat)
    requires n < Q64
    ensures Uint64(n) == n
  {
  }

  /** The floor of n/d, computed from a truncating division as both programs do. */
  function FloorIndex(n: int, d: int): (q: int)
    requires d > 0
    ensures q * d <= n < q * d + d
  {
    TruncRemainder(n, d);
    if TruncMod(n, d) == 0 || n >= 0 then TruncDiv(n, d) else
    assert TruncDiv(n, d) * d - d == (TruncDiv(n, d) - 1) * d;
    TruncDiv(n, d) - 1
  }

  /** Truncation leaves a remainder of the dividend's own sign. */
  lemma TruncRemainder(n: int, d: int)
    requires d > 0
    ensures if n >= 0 then 0 <= TruncMod(n, d) < d else -d < TruncMod(n, d) <= 0
  {
    if n >= 0 {
      assert n == (n / d) * d + n % d;
    } else {
      assert -n == ((-n) / d) * d + (-n) % d;
      assert TruncDiv(n, d) * d == -(((-n) / d) * d);
    }
  }

  lemma MultipleOrder(a: int, b: int, d: int)
    requires d > 0 && a * d < b * d + d
    ensures a <= b
  {
    var k := a - b - 1;
    assert k * d == a * d - b * d - d;
    NegativeProduct(k, d);
  }

  lemma NegativeProduct(k: int, d: int)
    requires d > 0 && k * d < 0
    ensures k < 0
  {
  }

  /** A multiple of d at or below n is at or below the floor's multiple. */
  lemma FloorIndexIsGreatest(n: int, d: int, k: int)
    requires d > 0 && k * d <= n
    ensures k <= FloorIndex(n, d)
  {
    MultipleOrder(k, FloorIndex(n, d), d);
  }

  lemma FloorIndexOfMultiple(k: int, d: int)
    requires d > 0
    ensures FloorIndex(k * d, d) == k
  {
    FloorIndexIsGreatest(k * d, d, k);
    MultipleOrder(FloorIndex(k * d, d), k, d);
  }

  /** A multiple of d is exactly what leaves no truncated remainder. */
  lemma NoRemainder(n: int, d: int)
    requires d > 0 && TruncMod(n, d) == 0
    ensures FloorIndex(n, d) * d == n
  {
  }

  lemma Multiples(a: int, b: int, d: nat)
    requires a <= b
    ensures a * d <= b * d
  {
    MulMono(0, b - a, d);
    Distribute(d, b, a);
  }

  lemma StrictMultiple(a: int, b: int, d: nat)
    requires d > 0 && a * d < b * d
    ensures a < b
  {
    if a >= b {
      Multiples(b, a, d);
    }
  }

  /** An index is no larger in magnitude than its group's tick. */
  lemma SmallIndex(index: int, size: nat)
    requires size > 0
    ensures index >= 0 ==> index <= index * size
    ensures index <= 0 ==> index * size <= index
  {
    if index >= 0 {
      MulMono(1, size, index);
    } else {
      MulMono(1, size, -index);
    }
  }

  lemma MultipleBetween(k: int, q: int, d: nat)
    requires d > 0 && k * d - q * d < d && q * d - k * d < d
    ensures k == q
  {
    MultipleOrder(k, q, d);
    MultipleOrder(q, k, d);
  }

  /** A multiple of the group size is its own group's lower edge. */
  lemma MultipleGroup(index: int, size: nat, tick: int)
    requires size > 0 && tick == index * size
    ensures FloorIndex(tick, size) == index && TruncDiv(tick, size) == index && TruncMod(tick, size) == 0
    ensures FloorIndex(tick - 1, size) == index - 1
  {
    FloorIndexOfMultiple(index, size);
    TruncRemainder(tick, size);
    var q := TruncDiv(tick, size);
    MultipleOrder(q, index, size);
    Distribute(size, q, 1);
    MultipleOrder(index, q + 1, size);
    Distribute(size, index, 1);
    MultipleBetween(index, q, size);
    FloorIndexIsGreatest(tick - 1, size, index - 1);
    MultipleOrder(FloorIndex(tick - 1, size), index - 1, size);
  }

  /** A share out of 10_000, rounded down and kept in 32 bits. */
  lemma Uint32Share(n: nat, k: nat)
    ensures n < TWO32 * 10_000 ==> (k <= Uint32(n / 10_000) <==> k * 10_000 <= n)
  {
    if n < TWO32 * 10_000 {
      Uint32Exact(n / 10_000);
    }
  }
}
