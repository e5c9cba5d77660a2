/** Raydium's tick-array walker: arrays loaded one after the other in the swap direction and searched from
    a position that only moves on. For queries that move with the swap it answers exactly like a flat
    search for the nearest stop in the arrays the swap may use. */
module RaydiumWalker {
  import opened Wrappers
  import opened Rounding
  import opened MachineIntegers
  import opened TickMath
  import RaydiumMath
  import RaydiumQuote
  import RaydiumRun
  import RaydiumTheorems
  import RaydiumTracking

  const TICKS_PER_ARRAY: nat := 60

  datatype ArrayTick = ArrayTick(hasLiquidity: bool, liquidityNet: int, unfilled: nat) {
    /** A swap stops at liquidity or at resting limit orders. */
    predicate Stops() {
      hasLiquidity || unfilled > 0
    }
  }

  datatype RawArray = RawArray(start: int, ticks: seq<ArrayTick>)

  type TickArray = a: RawArray | |a.ticks| == TICKS_PER_ARRAY
    witness RawArray(0, seq(TICKS_PER_ARRAY, i => ArrayTick(false, 0, 0)))

  datatype LoadError = LoadError(code: int)

  /** The first initialized array starting at or past a tick in the swap direction, if there is one. */
  type Loader = (int, bool) -> Result<Option<TickArray>, LoadError>

  /** What a walk is over. */
  datatype Walk = Walk(tickCurrent: int, tickSpacing: nat, maxArrays: nat, load: Loader, zeroForOne: bool) {
    function Span(): nat {
      tickSpacing * TICKS_PER_ARRAY
    }

    function TickIndex(a: TickArray, i: nat): int {
      a.start + i * tickSpacing
    }

    function BoundaryAt(a: TickArray, i: nat): RaydiumRun.Boundary
      requires i < TICKS_PER_ARRAY
    {
      RaydiumRun.Boundary(TickIndex(a, i), Some(a.ticks[i].liquidityNet), a.ticks[i].hasLiquidity, a.ticks[i].unfilled)
    }

    /** Tick i of an array is a stop at or past fromTick in the swap direction. */
    predicate Meets(a: TickArray, i: nat, fromTick: int)
      requires i < TICKS_PER_ARRAY
    {
      a.ticks[i].Stops() && if zeroForOne then TickIndex(a, i) <= fromTick else TickIndex(a, i) > fromTick
    }

    /** Where the next array is looked for after those already loaded. */
    function NextStart(loaded: seq<TickArray>): int
      requires tickSpacing > 0
    {
      if loaded == [] then FloorIndex(tickCurrent, Span()) * Span()
      else
        var last := loaded[|loaded| - 1].start;
        if zeroForOne then last - Span() else last + Span()
    }

    /** The first n arrays, or as many as there are. */
    function Arrays(n: nat): (arrays: seq<TickArray>)
      requires tickSpacing > 0
      ensures |arrays| <= n
    {
      if n == 0 then []
      else
        var before := Arrays(n - 1);
        if |before| < n - 1 then before
        else
          var found := load(NextStart(before), zeroForOne);
          if found.Ok? && found.value.Some? then before + [found.value.value] else before
    }

    /** The arrays the swap may use. */
    function All(): (all: seq<TickArray>)
      requires tickSpacing > 0
      ensures |all| <= maxArrays
    {
      Arrays(maxArrays)
    }

    /** The error that cut the walk short, if one did. */
    function Failure(): Option<LoadError>
      requires tickSpacing > 0
    {
      if |All()| == maxArrays then None
      else
        var found := load(NextStart(All()), zeroForOne);
        if found.Err? then Some(found.error) else None
    }

    /** The search of one array, from tick i on in the swap direction. */
    function SearchFrom(a: TickArray, fromTick: int, i: int): Option<RaydiumRun.Boundary>
      requires -1 <= i <= TICKS_PER_ARRAY
      decreases if zeroForOne then i + 1 else TICKS_PER_ARRAY - i
    {
      if i < 0 || i == TICKS_PER_ARRAY then None
      else if Meets(a, i, fromTick) then Some(BoundaryAt(a, i))
      else SearchFrom(a, fromTick, if zeroForOne then i - 1 else i + 1)
    }

    function Search(a: TickArray, fromTick: int): Option<RaydiumRun.Boundary> {
      SearchFrom(a, fromTick, if zeroForOne then TICKS_PER_ARRAY - 1 else 0)
    }

    /** The flat search through a list of arrays. */
    function FlatNext(arrays: seq<TickArray>, fromTick: int): Option<RaydiumRun.Boundary> {
      if arrays == [] then None
      else
        var found := Search(arrays[0], fromTick);
        if found.Some? then found else FlatNext(arrays[1..], fromTick)
    }

    // ---- the flat search is the nearest stop ----

    /** The loader's contract: the array it finds starts at or past where it was asked to look. */
    ghost predicate LoaderHonours() {
      forall start: int ::
        var found := load(start, zeroForOne);
        found.Ok? && found.value.Some? ==>
          if zeroForOne then found.value.value.start <= start else start <= found.value.value.start
    }

    /** Arrays in the swap direction, a whole span apart. */
    ghost predicate Spaced(arrays: seq<TickArray>) {
      forall i, j :: 0 <= i < j < |arrays| ==>
                       if zeroForOne then arrays[j].start + Span() <= arrays[i].start
                       else arrays[i].start + Span() <= arrays[j].start
    }

    lemma {:induction false} ArraysSpaced(n: nat)
      requires tickSpacing > 0 && LoaderHonours()
      ensures Spaced(Arrays(n))
    {
      if n > 0 {
        ArraysSpaced(n - 1);
        var before := Arrays(n - 1);
        if |before| == n - 1 {
          var found := load(NextStart(before), zeroForOne);
        }
      }
    }

    /** t is no further from the start of the search than u. */
    predicate NoFurther(t: int, u: int) {
      if zeroForOne then u <= t else t <= u
    }

    /** b is one of the array's stops at or past fromTick. */
    ghost predicate StopOf(a: TickArray, fromTick: int, b: RaydiumRun.Boundary) {
      exists i: nat :: i < TICKS_PER_ARRAY && Meets(a, i, fromTick) && b == BoundaryAt(a, i)
    }

    lemma {:induction false} SearchFindsStop(a: TickArray, fromTick: int, i: int)
      requires -1 <= i <= TICKS_PER_ARRAY
      ensures var found := SearchFrom(a, fromTick, i);
              found.Some? ==> StopOf(a, fromTick, found.value)
      decreases if zeroForOne then i + 1 else TICKS_PER_ARRAY - i
    {
      hide BoundaryAt, Meets;
      if 0 <= i < TICKS_PER_ARRAY && !Meets(a, i, fromTick) {
        SearchFindsStop(a, fromTick, if zeroForOne then i - 1 else i + 1);
      }
    }

    /** No stop still ahead of the search is nearer than the one it finds. */
    lemma {:induction false} SearchFindsNearest(a: TickArray, fromTick: int, i: int, k: nat)
      requires 0 <= i < TICKS_PER_ARRAY && k < TICKS_PER_ARRAY
      requires (if zeroForOne then k <= i else i <= k) && Meets(a, k, fromTick)
      ensures var found := SearchFrom(a, fromTick, i);
              found.Some? && NoFurther(found.value.tickIndex, TickIndex(a, k))
      decreases if zeroForOne then i + 1 else TICKS_PER_ARRAY - i
    {
      hide Meets;
      if Meets(a, i, fromTick) {
        if zeroForOne {
          MulMono(k, i, tickSpacing);
        } else {
          MulMono(i, k, tickSpacing);
        }
      } else {
        SearchFindsNearest(a, fromTick, if zeroForOne then i - 1 else i + 1, k);
      }
    }

    /** Every tick of an array lies within its span. */
    lemma WithinSpan(a: TickArray, i: nat)
      requires i < TICKS_PER_ARRAY && tickSpacing > 0
      ensures a.start <= TickIndex(a, i) < a.start + Span()
    {
      MulMono(i, TICKS_PER_ARRAY - 1, tickSpacing);
      Distribute(tickSpacing, TICKS_PER_ARRAY - 1, 1);
    }

    lemma {:induction false} FlatFindsStop(arrays: seq<TickArray>, fromTick: int)
      ensures var found := FlatNext(arrays, fromTick);
              found.Some? ==> exists k :: 0 <= k < |arrays| && StopOf(arrays[k], fromTick, found.value)
    {
      hide StopOf, SearchFrom;
      if arrays != [] {
        SearchFindsStop(arrays[0], fromTick, if zeroForOne then TICKS_PER_ARRAY - 1 else 0);
        FlatFindsStop(arrays[1..], fromTick);
        if Search(arrays[0], fromTick).Some? {
          assert StopOf(arrays[0], fromTick, FlatNext(arrays, fromTick).value);
        } else if FlatNext(arrays, fromTick).Some? {
          var k :| 0 <= k < |arrays[1..]| && StopOf(arrays[1..][k], fromTick, FlatNext(arrays, fromTick).value);
          assert arrays[1..][k] == arrays[k + 1];
        }
      }
    }

    lemma {:induction false} FlatFindsNearest(arrays: seq<TickArray>, fromTick: int, k: nat, i: nat)
      requires tickSpacing > 0 && Spaced(arrays)
      requires k < |arrays| && i < TICKS_PER_ARRAY && Meets(arrays[k], i, fromTick)
      ensures var found := FlatNext(arrays, fromTick);
              found.Some? && NoFurther(found.value.tickIndex, TickIndex(arrays[k], i))
    {
      hide SearchFrom, Meets, TickIndex, Span;
      var first := if zeroForOne then TICKS_PER_ARRAY - 1 else 0;
      if k == 0 {
        SearchFindsNearest(arrays[0], fromTick, first, i);
      } else if Search(arrays[0], fromTick).Some? {
        SearchFindsStop(arrays[0], fromTick, first);
        var j: nat :| j < TICKS_PER_ARRAY && Meets(arrays[0], j, fromTick)
                      && Search(arrays[0], fromTick).value == BoundaryAt(arrays[0], j);
        WithinSpan(arrays[0], j);
        WithinSpan(arrays[k], i);
      } else {
        FlatFindsNearest(arrays[1..], fromTick, k - 1, i);
      }
    }

    /** b is what tick i of an array is to a swap. */
    predicate IsTick(a: TickArray, i: nat, b: RaydiumRun.Boundary) {
      && i < 60
      && b == RaydiumRun.Boundary(a.start + i * tickSpacing, Some(a.ticks[i].liquidityNet), a.ticks[i].hasLiquidity,
                                  a.ticks[i].unfilled)
    }

    /** A swap from fromTick stops there: at liquidity or resting orders, at or below fromTick when token_0 is sold and
        above it otherwise. */
    predicate StopsSwap(b: RaydiumRun.Boundary, fromTick: int) {
      (b.initialized || b.unfilled > 0) && if zeroForOne then b.tickIndex <= fromTick else fromTick < b.tickIndex
    }

    /** The answer is a tick of one of the arrays that stops a swap from fromTick, with none nearer; or there is no such
        tick. */
    ghost predicate Nearest(arrays: seq<TickArray>, fromTick: int, found: Option<RaydiumRun.Boundary>) {
      && (found.Some? ==> StopsSwap(found.value, fromTick)
                          && exists k, i :: 0 <= k < |arrays| && IsTick(arrays[k], i, found.value))
      && forall k, i, b ::
           0 <= k < |arrays| && IsTick(arrays[k], i, b) && StopsSwap(b, fromTick) ==>
             found.Some? && if zeroForOne then b.tickIndex <= found.value.tickIndex
             else found.value.tickIndex <= b.tickIndex
    }

    /** The flat search finds exactly the nearest stop, and nothing when there is none. */
    lemma FlatIsNearest(arrays: seq<TickArray>, fromTick: int)
      requires tickSpacing > 0 && Spaced(arrays)
      ensures Nearest(arrays, fromTick, FlatNext(arrays, fromTick))
    {
      hide SearchFrom, FlatNext;
      FlatFindsStop(arrays, fromTick);
      var found := FlatNext(arrays, fromTick);
      if found.Some? {
        var k :| 0 <= k < |arrays| && StopOf(arrays[k], fromTick, found.value);
        var i: nat :| i < TICKS_PER_ARRAY && Meets(arrays[k], i, fromTick) && found.value == BoundaryAt(arrays[k], i);
        assert IsTick(arrays[k], i, found.value);
      }
      forall k, i, b | 0 <= k < |arrays| && IsTick(arrays[k], i, b) && StopsSwap(b, fromTick)
        ensures found.Some? && NoFurther(found.value.tickIndex, b.tickIndex)
      {
        FlatFindsNearest(arrays, fromTick, k, i);
      }
    }

    /** Where the arrays come from: the first from the start of the pool's own array, every other one from the span next
        to the one before; short of n the next one is missing or fails to load. */
    lemma {:induction false} ArraysFollow(n: nat)
      requires tickSpacing > 0
      ensures var arrays := Arrays(n);
              && (forall k :: 0 <= k < |arrays| ==> LoadedAfter(arrays, k, Ok(Some(arrays[k]))))
              && (|arrays| < n ==> var next := load(StartAfter(arrays, |arrays|), zeroForOne);
                                   next.Err? || next.value.None?)
    {
      hide NextStart, StartAfter, LoadedAfter;
      if n > 0 {
        ArraysFollow(n - 1);
        var before, arrays := Arrays(n - 1), Arrays(n);
        SameStart(before);
        if arrays != before {
          assert arrays == before + [arrays[n - 1]];
          forall k | 0 <= k < |arrays| ensures LoadedAfter(arrays, k, Ok(Some(arrays[k]))) {
            Appended(before, arrays[n - 1], k);
          }
        }
      }
    }

    lemma SameStart(loaded: seq<TickArray>)
      requires tickSpacing > 0
      ensures NextStart(loaded) == StartAfter(loaded, |loaded|)
    {
      hide FloorIndex;
    }

    lemma Appended(before: seq<TickArray>, last: TickArray, k: nat)
      requires tickSpacing > 0 && k <= |before|
      requires if k < |before| then LoadedAfter(before, k, Ok(Some(before[k])))
               else load(StartAfter(before, k), zeroForOne) == Ok(Some(last))
      ensures LoadedAfter(before + [last], k, Ok(Some((before + [last])[k])))
    {
      hide FloorIndex;
    }

    function StartAfter(arrays: seq<TickArray>, k: nat): int
      requires tickSpacing > 0 && k <= |arrays|
    {
      var span := 60 * tickSpacing;
      if k == 0 then FloorIndex(tickCurrent, span) * span
      else if zeroForOne then arrays[k - 1].start - span
      else arrays[k - 1].start + span
    }

    predicate LoadedAfter(arrays: seq<TickArray>, k: nat, found: Result<Option<TickArray>, LoadError>)
      requires tickSpacing > 0 && k <= |arrays|
    {
      load(StartAfter(arrays, k), zeroForOne) == found
    }

    /** An array with nothing for one query has nothing for a later one. */
    lemma NothingLater(a: TickArray, fromTick: int, later: int)
      requires Search(a, fromTick).None? && if zeroForOne then later <= fromTick else fromTick <= later
      ensures Search(a, later).None?
    {
      hide SearchFrom;
      var first := if zeroForOne then TICKS_PER_ARRAY - 1 else 0;
      SearchFindsStop(a, later, first);
      if Search(a, later).Some? {
        var i: nat :| i < TICKS_PER_ARRAY && Meets(a, i, later) && Search(a, later).value == BoundaryAt(a, i);
        SearchFindsNearest(a, fromTick, first, i);
      }
    }

    /** Arrays with nothing for a query can be passed over. */
    lemma {:induction false} SkipExhausted(arrays: seq<TickArray>, n: nat, fromTick: int)
      requires n <= |arrays| && forall k :: 0 <= k < n ==> Search(arrays[k], fromTick).None?
      ensures FlatNext(arrays, fromTick) == FlatNext(arrays[n..], fromTick)
      decreases n
    {
      hide Search;
      if n > 0 {
        assert arrays[1..][n - 1..] == arrays[n..];
        SkipExhausted(arrays[1..], n - 1, fromTick);
      } else {
        assert arrays[0..] == arrays;
      }
    }

    // ---- what a walker may already have loaded ----

    /** Loading further never changes what was loaded, and stops for good once it stops. */
    lemma {:induction false} ArraysExtend(n: nat, m: nat)
      requires tickSpacing > 0 && n <= m
      ensures Arrays(n) <= Arrays(m)
      ensures |Arrays(n)| < n ==> Arrays(m) == Arrays(n)
      decreases m - n
    {
      if n < m {
        ArraysExtend(n, m - 1);
      }
    }

    lemma {:induction false} PrefixIsArrays(n: nat)
      requires tickSpacing > 0 && n <= |All()|
      ensures Arrays(n) == All()[..n]
    {
      ArraysExtend(n, maxArrays);
      if |Arrays(n)| < n {
        assert false;
      }
    }

    /** After the arrays already held, the next load either extends them or ends the walk. */
    lemma NextLoad(held: seq<TickArray>)
      requires tickSpacing > 0 && held <= All() && |held| < maxArrays
      ensures var found := load(NextStart(held), zeroForOne);
              if found.Ok? && found.value.Some? then held + [found.value.value] <= All()
              else held == All() && Failure() == if found.Err? then Some(found.error) else None
    {
      var n := |held|;
      PrefixIsArrays(n);
      assert Arrays(n) == held;
      ArraysExtend(n + 1, maxArrays);
    }
  }

  // ---- the program ----

  class TickArrayWalker {
    const tickCurrent: int
    const tickSpacing: nat
    const maxArrays: nat
    const load: Loader

    var arrays: seq<TickArray>
    var current: nat
    var done: bool
    var err: Option<LoadError>

    /** The direction of the swap the walker was built for, and the last tick it was asked from. */
    ghost const zeroForOne: bool
    ghost var asked: Option<int>

    ghost function Model(): Walk {
      Walk(tickCurrent, tickSpacing, maxArrays, load, zeroForOne)
    }

    /** What is held is the start of the walk, the flags tell the truth, and no array already passed has
        a stop for any query still to come. */
    ghost predicate Valid()
      reads this
    {
      && tickSpacing > 0
      && arrays <= Model().All()
      && (done ==> arrays == Model().All() && Model().Failure().None? && err.None?)
      && (err.Some? ==> arrays == Model().All() && Model().Failure() == err)
      && current <= |arrays|
      && (current > 0 ==> asked.Some? && Exhausted(current, asked.value))
    }

    ghost predicate Exhausted(n: nat, fromTick: int)
      reads this
      requires n <= |arrays|
    {
      forall k :: 0 <= k < n ==> Model().Search(arrays[k], fromTick).None?
    }

    /** A query that moves with the swap. */
    ghost predicate MovesOn(fromTick: int)
      reads this
    {
      asked.Some? ==> if zeroForOne then fromTick <= asked.value else asked.value <= fromTick
    }

    constructor (tickCurrent': int, tickSpacing': nat, maxArrays': nat, load': Loader, ghost zeroForOne': bool)
      requires tickSpacing' > 0
      ensures Valid() && Model() == Walk(tickCurrent', tickSpacing', maxArrays', load', zeroForOne')
      ensures asked.None? && err.None? && arrays == []
    {
      tickCurrent, tickSpacing, maxArrays, load := tickCurrent', tickSpacing', maxArrays', load';
      arrays, current, done, err := [], 0, false, None;
      zeroForOne, asked := zeroForOne', None;
    }

    /** The i-th array of the walk, loaded on first use. */
    method Array(i: nat, direction: bool) returns (found: Option<TickArray>)
      requires Valid() && direction == zeroForOne
      modifies this`arrays, this`done, this`err
      ensures Valid() && old(arrays) <= arrays
      ensures found == if i < |Model().All()| then Some(Model().All()[i]) else None
      ensures found.Some? ==> i < |arrays|
      ensures found.None? ==> arrays == Model().All() && err == Model().Failure()
    {
      hide Walk.All, Walk.Failure, Walk.NextStart, Walk.Search;
      while |arrays| <= i
        invariant Valid() && old(arrays) <= arrays
        decreases maxArrays - |arrays|
      {
        if done || err.Some? || |arrays| == maxArrays {
          WholeWalk();
          return None;
        }
        var start := FloorIndex(tickCurrent, tickSpacing * TICKS_PER_ARRAY) * (tickSpacing * TICKS_PER_ARRAY);
        if |arrays| > 0 {
          start := NextStart(arrays[|arrays| - 1].start, direction);
        }
        var loaded := load(start, direction);
        AtNextStart(start);
        Model().NextLoad(arrays);
        if loaded.Err? {
          err := Some(loaded.error);
          return None;
        }
        if loaded.value.None? {
          done := true;
          return None;
        }
        arrays := arrays + [loaded.value.value];
      }
      return Some(arrays[i]);
    }

    /** Where to look for the array after one. */
    function NextStart(start: int, direction: bool): int {
      var span := tickSpacing * TICKS_PER_ARRAY;
      if direction then start - span else start + span
    }

    lemma AtNextStart(start: int)
      requires tickSpacing > 0
      requires start == if |arrays| > 0 then NextStart(arrays[|arrays| - 1].start, zeroForOne)
                        else FloorIndex(tickCurrent, tickSpacing * TICKS_PER_ARRAY) * (tickSpacing * TICKS_PER_ARRAY)
      ensures start == Model().NextStart(arrays)
    {
    }

    lemma WholeWalk()
      requires Valid() && (done || err.Some? || |arrays| == maxArrays)
      ensures arrays == Model().All() && err == Model().Failure()
    {
      assert |Model().All()| <= maxArrays;
    }

    function BoundaryOf(tick: ArrayTick, tickIndex: int): RaydiumRun.Boundary {
      RaydiumRun.Boundary(tickIndex, Some(tick.liquidityNet), tick.hasLiquidity, tick.unfilled)
    }

    /** The search of one array, tick by tick. */
    method SearchArray(a: TickArray, fromTick: int, direction: bool) returns (found: Option<RaydiumRun.Boundary>)
      requires direction == zeroForOne
      ensures found == Model().Search(a, fromTick)
    {
      if direction {
        var i := TICKS_PER_ARRAY - 1;
        while i >= 0
          invariant -1 <= i < TICKS_PER_ARRAY && Model().Search(a, fromTick) == Model().SearchFrom(a, fromTick, i)
        {
          var tickIndex := a.start + i * tickSpacing;
          if tickIndex <= fromTick && a.ticks[i].Stops() {
            return Some(BoundaryOf(a.ticks[i], tickIndex));
          }
          i := i - 1;
        }
        return None;
      }
      var i := 0;
      while i < TICKS_PER_ARRAY
        invariant 0 <= i <= TICKS_PER_ARRAY && Model().Search(a, fromTick) == Model().SearchFrom(a, fromTick, i)
      {
        var tickIndex := a.start + i * tickSpacing;
        if tickIndex > fromTick && a.ticks[i].Stops() {
          return Some(BoundaryOf(a.ticks[i], tickIndex));
        }
        i := i + 1;
      }
      return None;
    }

    lemma StillExhausted(fromTick: int)
      requires Valid() && MovesOn(fromTick) && current > 0
      ensures Exhausted(current, fromTick)
    {
      hide Walk.Search, Walk.All, Walk.Failure;
      forall k | 0 <= k < current ensures Model().Search(arrays[k], fromTick).None? {
        Model().NothingLater(arrays[k], asked.value, fromTick);
      }
    }

    /** The tick provider: for a query that moves with the swap, the stateful search answers like the flat
        one over every array the swap may use, and reports the loader's error when that cut the walk short. */
    method Next(fromTick: int, direction: bool) returns (found: Option<RaydiumRun.Boundary>)
      requires Valid() && direction == zeroForOne && MovesOn(fromTick)
      modifies this
      ensures Valid() && asked == Some(fromTick)
      ensures found == Model().FlatNext(Model().All(), fromTick)
      ensures found.None? ==> err == Model().Failure()
    {
      hide Walk.Search, Walk.All, Walk.Failure;
      if current > 0 {
        StillExhausted(fromTick);
      }
      asked := Some(fromTick);
      while true
        invariant Valid() && asked == Some(fromTick)
        decreases |Model().All()| - current
      {
        var a := Array(current, direction);
        Model().SkipExhausted(Model().All(), current, fromTick);
        if a.None? {
          return None;
        }
        found := SearchArray(a.value, fromTick, direction);
        if found.Some? {
          return;
        }
        current := current + 1;
      }
    }
  }

  /** Where the arrays of a swap start. */
  method SwapTickArrayStarts(tickCurrent: int, tickSpacing: nat, zeroForOne: bool, maxArrays: nat, load: Loader)
    returns (starts: seq<int>, err: Option<LoadError>)
    requires tickSpacing > 0
    ensures var w := Walk(tickCurrent, tickSpacing, maxArrays, load, zeroForOne);
            && |starts| == |w.All()| && (forall i :: 0 <= i < |starts| ==> starts[i] == w.All()[i].start)
            && err == w.Failure()
  {
    hide Walk.All, Walk.Search;
    var walker := new TickArrayWalker(tickCurrent, tickSpacing, maxArrays, load, zeroForOne);
    starts := [];
    var i: nat := 0;
    while i < maxArrays
      invariant walker.Valid() && walker.Model() == Walk(tickCurrent, tickSpacing, maxArrays, load, zeroForOne)
      invariant i == |starts| <= |walker.Model().All()| && i <= maxArrays
      invariant forall k :: 0 <= k < i ==> starts[k] == walker.Model().All()[k].start
    {
      var a := walker.Array(i, zeroForOne);
      if a.None? {
        break;
      }
      starts := starts + [a.value.start];
      i := i + 1;
    }
    return starts, walker.err;
  }

  // ---- as the provider of a run ----

  /** The pure provider the walker refines. */
  function Provider(w: Walk): RaydiumRun.TickProvider
    requires w.tickSpacing > 0
  {
    (fromTick: int, zeroForOne: bool) => w.FlatNext(w.All(), fromTick)
  }

  /** The stops of a walk lie in the tick range and hold a u64 of orders each. */
  ghost predicate StopsInRange(w: Walk)
    requires w.tickSpacing > 0
  {
    forall k, i: nat :: 0 <= k < |w.All()| && i < TICKS_PER_ARRAY && w.All()[k].ticks[i].Stops() ==>
                          InRange(w.TickIndex(w.All()[k], i)) && w.All()[k].ticks[i].unfilled <= U64MAX
  }

  /** Over arrays that stay in the tick range the walker honours the contract every run theorem assumes. */
  lemma WalkerHonours(w: Walk)
    requires w.tickSpacing > 0 && StopsInRange(w)
    ensures RaydiumRun.Honours(Provider(w), w.zeroForOne)
  {
    hide Walk.FlatNext, Walk.All, InRange;
    forall t: int ensures w.FlatNext(w.All(), t).Some? ==>
                            RaydiumRun.StopFrom(t, w.FlatNext(w.All(), t).value, w.zeroForOne) {
      w.FlatFindsStop(w.All(), t);
    }
  }

  /** A run only asks from ticks that move with the swap: while input is left, each query starts strictly
      past the one before. */
  lemma RunQueriesMoveOn(s: RaydiumRun.State, b: RaydiumRun.Boundary, zeroForOne: bool, feeOnInput: bool)
    requires RaydiumRun.Positioned(s, zeroForOne) && RaydiumRun.StopFrom(s.tick, b, zeroForOne)
    ensures var inner := RaydiumRun.Inner(s, b.unfilled, s.liquidity);
            && RaydiumRun.Approaching(inner, b, zeroForOne)
            && var walked := RaydiumRun.StepToBoundary(inner, b, zeroForOne, feeOnInput);
            walked.Ok? && walked.value.remaining > 0 ==>
              if zeroForOne then walked.value.tick < s.tick else s.tick < walked.value.tick
  {
    hide RaydiumRun.Positioned, RaydiumRun.Approaching, RaydiumRun.StepToBoundary, RaydiumPrice;
    RaydiumRun.AtBoundary(s, b, zeroForOne);
    RaydiumRun.StepToBoundarySound(RaydiumRun.Inner(s, b.unfilled, s.liquidity), b, zeroForOne, feeOnInput);
  }

  /** Over arrays that start on the tick-spacing grid every stop of the walker lies on it. */
  lemma WalkerOnGrid(w: Walk)
    requires w.tickSpacing > 0 && StartsOnGrid(w)
    ensures RaydiumTracking.GridStops(Provider(w), w.zeroForOne, w.tickSpacing)
  {
    hide Walk.FlatNext, Walk.All, TruncMod;
    forall t: int | w.FlatNext(w.All(), t).Some?
      ensures RaydiumTracking.OnGrid(w.FlatNext(w.All(), t).value, w.tickSpacing)
    {
      w.FlatFindsStop(w.All(), t);
      var stop := w.FlatNext(w.All(), t).value;
      var k :| 0 <= k < |w.All()| && w.StopOf(w.All()[k], t, stop);
      var i: nat :| i < TICKS_PER_ARRAY && w.Meets(w.All()[k], i, t) && stop == w.BoundaryAt(w.All()[k], i);
      var start := w.All()[k].start;
      var index := FloorIndex(start, w.tickSpacing);
      NoRemainder(start, w.tickSpacing);
      Distribute(w.tickSpacing, index, i);
      MultipleGroup(index + i, w.tickSpacing, stop.tickIndex);
    }
  }

  ghost predicate StartsOnGrid(w: Walk)
    requires w.tickSpacing > 0
  {
    forall k :: 0 <= k < |w.All()| ==> TruncMod(w.All()[k].start, w.tickSpacing) == 0
  }

  /** Fee tracking for the quotes the program makes: over the walker's own arrays every iteration a quote gets to is
      on course. */
  lemma WalkerQuoteTracks(pool: RaydiumQuote.Pool, amountIn: nat, w: Walk)
    requires pool.Consistent() && pool.sqrtPrice.Some? && pool.liquidity.Some? && amountIn <= U64MAX
    requires RaydiumTracking.FeeInRange(pool) && 0 < pool.tickSpacing == w.tickSpacing
    requires StopsInRange(w) && StartsOnGrid(w)
    ensures var s, feeOnInput := RaydiumQuote.NewState(pool, amountIn), pool.IsFeeOnInput(w.zeroForOne);
            && RaydiumRun.Honours(Provider(w), w.zeroForOne) && RaydiumRun.Positioned(s, w.zeroForOne)
            && forall at, b ::
                 RaydiumTheorems.RunReaches(s, at, b, w.zeroForOne, feeOnInput, Provider(w)) ==>
                   RaydiumTracking.OnCourse(at, b, w.zeroForOne, feeOnInput)
  {
    WalkerHonours(w);
    WalkerOnGrid(w);
    RaydiumTracking.QuoteTracks(pool, w.zeroForOne, amountIn, Provider(w));
  }

  /** The quote as the program makes it: the loop asks the stateful walker, whose answers are those of the arrays
      the swap may use; a load error that cut it short is left with the walker. */
  method QuoteOverWalker(pool: RaydiumQuote.Pool, zeroForOne: bool, amountIn: nat, walker: TickArrayWalker)
    returns (quote: Result<RaydiumQuote.QuoteResult, RaydiumRun.Error>)
    requires pool.Consistent() && amountIn <= U64MAX
    requires walker.Valid() && walker.zeroForOne == zeroForOne && walker.asked.None?
    requires StopsInRange(walker.Model())
    modifies walker
    ensures walker.Valid() && RaydiumRun.Honours(Provider(walker.Model()), zeroForOne)
    ensures quote == RaydiumQuote.QuoteExactIn(pool, zeroForOne, amountIn, Provider(walker.Model()))
    ensures walker.err.Some? ==> walker.err == walker.Model().Failure()
  {
    hide RaydiumPrice, RaydiumRun.StepToBoundary, RaydiumRun.TicksLeft, RaydiumRun.Positioned, RaydiumQuote.NewState,
      RaydiumMath.WithinSpot, Walk.FlatNext, Walk.All;
    WalkerHonours(walker.Model());
    ghost var ticks := Provider(walker.Model());
    if pool.sqrtPrice.None? || pool.liquidity.None? {
      return Err(RaydiumRun.InvalidPool);
    }
    if pool.SwapDisabled() {
      return Err(RaydiumRun.Error.SwapDisabled);
    }
    var state := new RaydiumQuote.SwapState(pool, amountIn);
    var feeOnInput := pool.IsFeeOnInput(zeroForOne);
    ghost var start := state.Model();
    RaydiumQuote.NewStatePositioned(pool, amountIn, zeroForOne);
    RaydiumTheorems.RunSound(start, zeroForOne, feeOnInput, ticks);
    var limit := RaydiumRun.Limit(zeroForOne);
    while state.amountRemaining > 0 && state.sqrtPrice != limit
      invariant walker.Valid() && fresh(state) && (state.amountRemaining > 0 ==> walker.MovesOn(state.tick))
      invariant RaydiumRun.Positioned(state.Model(), zeroForOne) && state.amountRemaining <= amountIn
      invariant RaydiumRun.Run(state.Model(), zeroForOne, feeOnInput, ticks)
             == RaydiumRun.Run(start, zeroForOne, feeOnInput, ticks)
      decreases state.amountRemaining > 0, RaydiumRun.TicksLeft(state.Model(), zeroForOne)
    {
      var stop := walker.Next(state.tick, zeroForOne);
      if stop.None? {
        break;
      }
      var b := stop.value;
      RunQueriesMoveOn(state.Model(), b, zeroForOne, feeOnInput);
      RaydiumRun.StepToBoundarySound(RaydiumRun.Inner(state.Model(), b.unfilled, state.liquidity),
                                     b, zeroForOne, feeOnInput);
      RaydiumQuote.OuterMeasure(state.Model(), b, zeroForOne, feeOnInput);
      var err := state.WalkToBoundary(b, zeroForOne, feeOnInput);
      if err.Some? {
        return Err(err.value);
      }
    }
    quote := Ok(RaydiumQuote.QuoteResult(state.amountOut, amountIn - state.amountRemaining));
  }
}
