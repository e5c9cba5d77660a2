/** Orca's tick-array walker: at most three arrays, one held at a time, with an uninitialized edge after
    the last. For queries that move with the swap it answers with the nearest initialized tick of the
    arrays the swap may use, else with their far edge, else with nothing. */
module OrcaWalker {
  import opened Rounding
  import opened Wrappers
  import opened MachineIntegers
  import opened TickTables
  import opened TickMath
  import OrcaFee
  import OrcaMath
  import OrcaQuote
  import OrcaRun
  import OrcaTracking
  import RaydiumMath

  const TICKS_PER_ARRAY: nat := 88

  datatype ArrayTick = ArrayTick(initialized: bool, liquidityNet: int)

  type TickArray = a: seq<ArrayTick> | |a| == TICKS_PER_ARRAY
    witness seq(TICKS_PER_ARRAY, i => ArrayTick(false, 0))

  function EmptyArray(): TickArray {
    seq(TICKS_PER_ARRAY, i => ArrayTick(false, 0))
  }

  datatype LoadError = LoadError(code: int)

  /** The array starting at a tick, or nothing when its account does not exist. */
  type Loader = int -> Result<Option<TickArray>, LoadError>

  // ---- the arrays a swap may use ----

  function Span(tickSpacing: nat): nat {
    tickSpacing * TICKS_PER_ARRAY
  }

  /** The start of the array holding a tick. */
  function ArrayStart(tick: int, tickSpacing: nat): int
    requires tickSpacing > 0
  {
    FloorIndex(tick, Span(tickSpacing)) * Span(tickSpacing)
  }

  /** An array start is a multiple of the span inside the tick range, or that of the one array straddling its
      lower end. */
  predicate ValidStart(start: int, span: nat)
    requires span > 0
  {
    if start < MIN_TICK || start > MAX_TICK
    then start <= MIN_TICK && start == MIN_TICK - (TruncMod(MIN_TICK, span) + span)
    else TruncMod(start, span) == 0
  }

  function Kept(start: int, span: nat): seq<int>
    requires span > 0
  {
    if ValidStart(start, span) then [start] else []
  }

  /** The first array of a swap, counted in spans from the pool's own: one further when an upward search
      would already begin outside it. */
  function FirstOffset(tickCurrent: int, tickSpacing: nat, aToB: bool): int
    requires tickSpacing > 0
  {
    if !aToB && tickCurrent + tickSpacing >= ArrayStart(tickCurrent, tickSpacing) + Span(tickSpacing) then 1 else 0
  }

  function Toward(aToB: bool): int {
    if aToB then -1 else 1
  }

  function SwapTickArrayStarts(tickCurrent: int, tickSpacing: nat, aToB: bool): seq<int>
    requires tickSpacing > 0
  {
    var span, base := Span(tickSpacing), ArrayStart(tickCurrent, tickSpacing);
    var first := FirstOffset(tickCurrent, tickSpacing, aToB);
    Kept(base + first * span, span)
    + Kept(base + (first + Toward(aToB)) * span, span)
    + Kept(base + (first + 2 * Toward(aToB)) * span, span)
  }

  /** The start of the left-edge array. */
  function LeftEdge(span: nat): int
    requires span > 0
  {
    MIN_TICK - (TruncMod(MIN_TICK, span) + span)
  }

  lemma LeftEdgeIsMultiple(span: nat)
    requires span > 0
    ensures LeftEdge(span) == (TruncDiv(MIN_TICK, span) - 1) * span
    ensures MIN_TICK - span <= LeftEdge(span) < MIN_TICK <= LeftEdge(span) + span
  {
    TruncRemainder(MIN_TICK, span);
    Distribute(span, TruncDiv(MIN_TICK, span), 1);
  }

  /** A multiple of the span is a valid start exactly from the left edge to the greatest tick. */
  lemma ValidIff(k: int, span: nat)
    requires span > 0
    ensures ValidStart(k * span, span) <==> LeftEdge(span) <= k * span <= MAX_TICK
  {
    hide TruncMod, TruncDiv;
    LeftEdgeIsMultiple(span);
    MultipleHasNoRemainder(k, span);
    var left := TruncDiv(MIN_TICK, span) - 1;
    if LeftEdge(span) <= k * span < MIN_TICK {
      MultipleOrder(left, k, span);
      MultipleOrder(k, left, span);
    }
  }

  lemma MultipleHasNoRemainder(k: int, span: nat)
    requires span > 0
    ensures TruncMod(k * span, span) == 0
  {
    if k >= 0 {
      DivideMultiple(k, span);
    } else {
      DivideMultiple(-k, span);
      assert -(k * span) == (-k) * span;
    }
  }

  lemma DivideMultiple(k: nat, span: nat)
    requires span > 0
    ensures (k * span) / span == k
  {
    FloorUnique(k, k * span, span);
  }

  /** The n arrays of a swap follow each other in its direction, and all of them are in reach. */
  ghost predicate Consecutive(starts: seq<int>, first: int, span: nat, aToB: bool) {
    && (forall i :: 0 <= i < |starts| ==> starts[i] == first + Toward(aToB) * (i * span))
    && (forall i :: 0 <= i < |starts| ==> MIN_TICK - span <= starts[i] <= MAX_TICK)
  }

  lemma InReach(tickCurrent: int, m: int, span: nat)
    requires span > 0 && MIN_TICK - 1 <= tickCurrent <= MAX_TICK
    ensures var base := FloorIndex(tickCurrent, span) * span;
            && LeftEdge(span) <= base <= MAX_TICK
            && (ValidStart(base + m * span, span) <==> LeftEdge(span) <= base + m * span <= MAX_TICK)
  {
    hide TruncMod, TruncDiv, ValidStart;
    LeftEdgeIsMultiple(span);
    var left, k := TruncDiv(MIN_TICK, span) - 1, FloorIndex(tickCurrent, span);
    FloorIndexIsGreatest(tickCurrent, span, left);
    Multiples(left, k, span);
    Distribute(span, k, m);
    ValidIff(k + m, span);
  }

  /** The starts a swap is given follow each other from its first array, none missing in between. */
  lemma StartsFollow(tickCurrent: int, tickSpacing: nat, aToB: bool)
    requires tickSpacing > 0 && MIN_TICK - 1 <= tickCurrent <= MAX_TICK
    ensures var span := Span(tickSpacing);
            var first := ArrayStart(tickCurrent, tickSpacing) + FirstOffset(tickCurrent, tickSpacing, aToB) * span;
            var starts := SwapTickArrayStarts(tickCurrent, tickSpacing, aToB);
            && span > 0 && |starts| <= 3 && Consecutive(starts, first, span, aToB)
            && (|starts| < 3 ==> !(LeftEdge(span) <= first + Toward(aToB) * (|starts| * span) <= MAX_TICK))
  {
    hide ValidStart, LeftEdge, FirstOffset, Consecutive, FloorIndex;
    var span, base := Span(tickSpacing), ArrayStart(tickCurrent, tickSpacing);
    var o, d := FirstOffset(tickCurrent, tickSpacing, aToB), Toward(aToB);
    OffsetIsSmall(tickCurrent, tickSpacing, aToB);
    InReach(tickCurrent, o, span);
    InReach(tickCurrent, o + d, span);
    InReach(tickCurrent, o + 2 * d, span);
    LeftEdgeIsMultiple(span);
    StepsApart(o, d, span);
    ThreeInRow(base + o * span, span, aToB);
  }

  /** The first array of a swap is the one holding the pool's tick when token A is sold, and the one holding the tick a
      spacing above it otherwise. */
  lemma FirstArrayHolds(tickCurrent: int, tickSpacing: nat, aToB: bool)
    requires tickSpacing > 0
    ensures var span, tick := 88 * tickSpacing, if aToB then tickCurrent else tickCurrent + tickSpacing;
            ArrayStart(tickCurrent, tickSpacing) + FirstOffset(tickCurrent, tickSpacing, aToB) * Span(tickSpacing)
            == FloorIndex(tick, span) * span
  {
    var span, tick := Span(tickSpacing), if aToB then tickCurrent else tickCurrent + tickSpacing;
    var index := FloorIndex(tickCurrent, span) + FirstOffset(tickCurrent, tickSpacing, aToB);
    assert span == 88 * tickSpacing;
    Distribute(span, FloorIndex(tickCurrent, span), 1);
    Distribute(span, index, 1);
    FloorIndexIsGreatest(tick, span, index);
    MultipleOrder(FloorIndex(tick, span), index, span);
  }

  lemma StepsApart(o: int, d: int, span: nat)
    ensures (o + d) * span == o * span + d * span
    ensures (o + 2 * d) * span == o * span + 2 * (d * span)
    ensures o == 0 ==> o * span == 0
    ensures o == 1 ==> o * span == span
  {
  }

  function KeptIf(start: int, lo: int, hi: int): seq<int> {
    if lo <= start <= hi then [start] else []
  }

  /** Keeping what lies in a range out of three steps keeps a run of them, when the first is on the near side. */
  lemma ThreeInRow(x: int, span: nat, aToB: bool)
    requires span > 0 && if aToB then x <= MAX_TICK else LeftEdge(span) <= x
    requires MIN_TICK - span <= LeftEdge(span)
    ensures var lo, d := LeftEdge(span), Toward(aToB) * span;
            var kept := KeptIf(x, lo, MAX_TICK) + KeptIf(x + d, lo, MAX_TICK) + KeptIf(x + 2 * d, lo, MAX_TICK);
            && Consecutive(kept, x, span, aToB)
            && (|kept| < 3 ==> !(lo <= x + Toward(aToB) * (|kept| * span) <= MAX_TICK))
  {
    hide LeftEdge;
  }

  lemma OffsetIsSmall(tickCurrent: int, tickSpacing: nat, aToB: bool)
    requires tickSpacing > 0
    ensures FirstOffset(tickCurrent, tickSpacing, aToB) in {0, 1}
    ensures aToB ==> FirstOffset(tickCurrent, tickSpacing, aToB) == 0
  {
  }

  // ---- the search ----

  datatype Walk = Walk(tickSpacing: nat, starts: seq<int>, load: Loader, aToB: bool) {
    /** Every start is one the program could be given. */
    predicate InBand() {
      && tickSpacing > 0
      && forall s :: s in starts ==> MIN_TICK - Span(tickSpacing) <= s <= MAX_TICK
    }

    /** A missing array reads as empty. */
    function Content(start: int): Result<TickArray, LoadError> {
      match load(start)
      case Err(e) => Err(e)
      case Ok(None) => Ok(EmptyArray())
      case Ok(Some(a)) => Ok(a)
    }

    /** The nearest initialized offset of an array, from i on in the swap direction. */
    function SearchFrom(a: TickArray, i: int): (found: Option<nat>)
      requires -1 <= i <= TICKS_PER_ARRAY
      ensures found.Some? ==> found.value < TICKS_PER_ARRAY
      decreases if aToB then i + 1 else TICKS_PER_ARRAY - i
    {
      if i < 0 || i == TICKS_PER_ARRAY then None
      else if a[i].initialized then Some(i)
      else SearchFrom(a, i + Toward(aToB))
    }

    /** The uninitialized stop an exhausted array ends the search with, if it does. */
    function Edge(start: int): Option<int>
      requires start in starts
    {
      if aToB && start <= MIN_TICK then Some(MIN_TICK)
      else if !aToB && start + Span(tickSpacing) > MAX_TICK then Some(MAX_TICK)
      else if start == starts[|starts| - 1] then Some(if aToB then start else start + Span(tickSpacing) - 1)
      else None
    }

    /** Spans left before the arrays leave the tick range. */
    function Room(start: int): nat {
      var lowest := MIN_TICK - Span(tickSpacing);
      if aToB then (if start >= lowest then start - lowest + 1 else 0)
      else (if start <= MAX_TICK then MAX_TICK - start + 1 else 0)
    }

    /** The search from a tick of the array at `start`; an error is the loader's. */
    function Find(start: int, tick: int): Result<Option<OrcaRun.Boundary>, LoadError>
      requires InBand() && start <= tick < start + Span(tickSpacing)
      decreases Room(start)
    {
      if start !in starts then Ok(None)
      else
        var a :- Content(start);
        OffsetInArray(start, tick);
        var hit := SearchFrom(a, TruncDiv(tick - start, tickSpacing));
        if hit.Some?
        then Ok(Some(OrcaRun.Boundary(start + hit.value * tickSpacing, Some(a[hit.value].liquidityNet), true)))
        else if Edge(start).Some? then Ok(Some(OrcaRun.Boundary(Edge(start).value, None, false)))
          else Find(NextStart(start), NextTick(start))
    }

    function NextStart(start: int): int {
      start + Toward(aToB) * Span(tickSpacing)
    }

    function NextTick(start: int): (tick: int)
      requires tickSpacing > 0
      ensures NextStart(start) <= tick < NextStart(start) + Span(tickSpacing)
    {
      if aToB then NextStart(start) + Span(tickSpacing) - tickSpacing else NextStart(start)
    }

    lemma OffsetInArray(start: int, tick: int)
      requires tickSpacing > 0 && start <= tick < start + Span(tickSpacing)
      ensures 0 <= TruncDiv(tick - start, tickSpacing) < TICKS_PER_ARRAY
    {
      FloorAdjoint(TICKS_PER_ARRAY, tick - start, tickSpacing);
    }

    /** The cases of the search. */
    lemma FindUnfolds(start: int, tick: int)
      requires InBand() && start <= tick < start + Span(tickSpacing)
      ensures start !in starts ==> Find(start, tick) == Ok(None)
      ensures start in starts && Content(start).Err? ==> Find(start, tick) == Err(Content(start).error)
      ensures start in starts && Content(start).Ok? ==>
                var offset := TruncDiv(tick - start, tickSpacing);
                && 0 <= offset < TICKS_PER_ARRAY
                && var a, hit := Content(start).value, SearchFrom(Content(start).value, offset);
                && (hit.Some? ==>
                      Find(start, tick)
                      == Ok(Some(OrcaRun.Boundary(TickIndex(start, hit.value), Some(a[hit.value].liquidityNet), true))))
                && (hit.None? && Edge(start).Some? ==>
                      Find(start, tick) == Ok(Some(OrcaRun.Boundary(Edge(start).value, None, false))))
                && (hit.None? && Edge(start).None? ==>
                      Find(start, tick) == Find(NextStart(start), NextTick(start))
                      && Room(NextStart(start)) < Room(start))
    {
      hide SearchFrom, TruncDiv, Content;
      OffsetInArray(start, tick);
    }

    /** The first tick a query looks at. */
    function QueryTick(fromTick: int): int
      requires tickSpacing > 0
    {
      if aToB then fromTick else FloorIndex(fromTick, tickSpacing) * tickSpacing + tickSpacing
    }

    function Next(fromTick: int): Result<Option<OrcaRun.Boundary>, LoadError>
      requires InBand()
    {
      Find(ArrayStart(QueryTick(fromTick), tickSpacing), QueryTick(fromTick))
    }

    // ---- what it finds ----

    function TickIndex(start: int, offset: nat): int {
      start + offset * tickSpacing
    }

    /** An initialized tick of an array the swap may use. */
    predicate InitializedAt(start: int, offset: nat) {
      start in starts && offset < TICKS_PER_ARRAY && Content(start).Ok? && Content(start).value[offset].initialized
    }

    predicate NoFurther(t: int, u: int) {
      if aToB then u <= t else t <= u
    }

    lemma {:induction false} SearchFindsInitialized(a: TickArray, i: int)
      requires -1 <= i <= TICKS_PER_ARRAY
      ensures var found := SearchFrom(a, i);
              found.Some? ==> a[found.value].initialized && if aToB then found.value <= i else i <= found.value
      decreases if aToB then i + 1 else TICKS_PER_ARRAY - i
    {
      if 0 <= i < TICKS_PER_ARRAY && !a[i].initialized {
        SearchFindsInitialized(a, i + Toward(aToB));
      }
    }

    lemma {:induction false} SearchFindsNearest(a: TickArray, i: int, k: nat)
      requires 0 <= i < TICKS_PER_ARRAY && k < TICKS_PER_ARRAY && a[k].initialized && NoFurther(i, k)
      ensures SearchFrom(a, i).Some? && NoFurther(SearchFrom(a, i).value, k)
      decreases if aToB then i + 1 else TICKS_PER_ARRAY - i
    {
      if !a[i].initialized {
        SearchFindsNearest(a, i + Toward(aToB), k);
      }
    }

    /** Offsets and tick indexes run the same way. */
    lemma OffsetOrder(start: int, i: nat, k: nat)
      requires NoFurther(i, k)
      ensures NoFurther(TickIndex(start, i), TickIndex(start, k))
    {
      if aToB {
        MulMono(k, i, tickSpacing);
      } else {
        MulMono(i, k, tickSpacing);
      }
    }

    lemma WithinSpan(start: int, offset: nat)
      requires tickSpacing > 0 && offset < TICKS_PER_ARRAY
      ensures start <= TickIndex(start, offset) <= start + Span(tickSpacing) - tickSpacing
    {
      MulMono(offset, TICKS_PER_ARRAY - 1, tickSpacing);
      Distribute(tickSpacing, TICKS_PER_ARRAY, 1);
    }

    /** A search position: a tick of the array at `start`, on the tick grid when searching up. */
    predicate At(start: int, tick: int)
      requires tickSpacing > 0
    {
      && start <= tick < start + Span(tickSpacing)
      && (!aToB ==> TruncMod(tick - start, tickSpacing) == 0)
    }

    /** An offset is at or past the search's exactly when its tick is. */
    lemma OffsetAtOrPast(start: int, tick: int, k: nat)
      requires tickSpacing > 0 && At(start, tick)
      ensures var offset := TruncDiv(tick - start, tickSpacing);
              NoFurther(offset, k) <==> NoFurther(tick, TickIndex(start, k))
    {
      var offset := TruncDiv(tick - start, tickSpacing);
      if aToB {
        FloorAdjoint(k, tick - start, tickSpacing);
      } else {
        assert offset * tickSpacing == tick - start;
        MultipleCompare(offset, k, tickSpacing);
      }
    }

    lemma MultipleCompare(a: int, b: int, d: nat)
      requires d > 0
      ensures a <= b <==> a * d <= b * d
    {
      if a <= b {
        Multiples(a, b, d);
      } else if a * d <= b * d {
        MultipleOrder(a, b, d);
      }
    }

    /** The arrays of a swap, one span apart. */
    ghost predicate Rowed() {
      InBand() && exists first :: Consecutive(starts, first, Span(tickSpacing), aToB)
    }

    /** Where one start stands relative to another: the same, a span or more further, or a span or more
        nearer; and the search's next start is the next in the row. */
    lemma Neighbours(start: int, other: int)
      requires Rowed() && start in starts && other in starts
      ensures other == start || NoFurther(start + Toward(aToB) * Span(tickSpacing), other)
              || NoFurther(other + Toward(aToB) * Span(tickSpacing), start)
      ensures NoFurther(start, starts[|starts| - 1]) && NoFurther(other, starts[|starts| - 1])
      ensures start != starts[|starts| - 1] ==> NextStart(start) in starts
    {
      var span := Span(tickSpacing);
      var first :| Consecutive(starts, first, span, aToB);
      var i :| 0 <= i < |starts| && starts[i] == start;
      var j :| 0 <= j < |starts| && starts[j] == other;
      RowOrder(first, i, j, span);
      RowOrder(first, i, |starts| - 1, span);
      RowOrder(first, j, |starts| - 1, span);
      RowOrder(first, i, i + 1, span);
      if start != starts[|starts| - 1] {
        assert starts[i + 1] == NextStart(start);
      }
    }

    lemma RowOrder(first: int, i: nat, j: nat, span: nat)
      ensures var x, y := first + Toward(aToB) * (i * span), first + Toward(aToB) * (j * span);
              && (i < j ==> NoFurther(x + Toward(aToB) * span, y))
              && (j < i ==> NoFurther(y + Toward(aToB) * span, x))
              && (i <= j ==> NoFurther(x, y))
              && (j == i + 1 ==> y == x + Toward(aToB) * span)
    {
      if i < j {
        MulMono(i + 1, j, span);
        Distribute(span, i, 1);
        MulMono(i, j, span);
      } else if j < i {
        MulMono(j + 1, i, span);
        Distribute(span, j, 1);
      }
    }

    lemma NextIsAt(start: int)
      requires tickSpacing > 0
      ensures At(NextStart(start), NextTick(start))
    {
      assert TruncMod(0, tickSpacing) == 0 by { FloorUnique(0, 0, tickSpacing); }
    }

    /** No initialized tick the swap can reach from `tick` on is nearer than what the search answers. */
    lemma {:induction false} FindsNearest(start: int, tick: int, s: int, offset: nat)
      requires Rowed() && start in starts && At(start, tick)
      requires InitializedAt(s, offset) && NoFurther(tick, TickIndex(s, offset))
      requires Find(start, tick).Ok?
      ensures var b := Find(start, tick).value;
              && b.Some? && NoFurther(b.value.tickIndex, TickIndex(s, offset))
              && (!b.value.initialized ==> !InRange(TickIndex(s, offset)))
      decreases Room(start)
    {
      hide SearchFrom, TruncDiv, Consecutive, ValidStart;
      OffsetInArray(start, tick);
      Neighbours(start, s);
      WithinSpan(s, offset);
      var i := TruncDiv(tick - start, tickSpacing);
      var a := Content(start).value;
      var hit := SearchFrom(a, i);
      if s == start {
        OffsetAtOrPast(start, tick, offset);
        SearchFindsNearest(a, i, offset);
        OffsetOrder(start, hit.value, offset);
      } else if hit.Some? {
        WithinSpan(start, hit.value);
      } else if Edge(start).None? {
        NextIsAt(start);
        FindsNearest(NextStart(start), NextTick(start), s, offset);
      }
    }

    /** The far edge of the arrays a swap may use, kept in the tick range. */
    function FarEdge(): int
      requires starts != []
    {
      var last := starts[|starts| - 1];
      if aToB then (if last <= MIN_TICK then MIN_TICK else last)
      else (if last + Span(tickSpacing) > MAX_TICK then MAX_TICK else last + Span(tickSpacing) - 1)
    }

    /** The answer is an initialized tick at or past the search, or the far edge. */
    ghost predicate Sound(tick: int, b: OrcaRun.Boundary) {
      if b.initialized then
        exists s: int, k: nat :: InitializedAt(s, k) && NoFurther(tick, TickIndex(s, k))
                                 && b == OrcaRun.Boundary(TickIndex(s, k), Some(Content(s).value[k].liquidityNet), true)
      else starts != [] && b == OrcaRun.Boundary(FarEdge(), None, false)
    }

    /** Starting in the row, the search always answers unless a load fails, and it answers soundly. */
    lemma {:induction false} FindIsSound(start: int, tick: int)
      requires Rowed() && start in starts && At(start, tick)
      requires Find(start, tick).Ok?
      ensures Find(start, tick).value.Some? && Sound(tick, Find(start, tick).value.value)
      decreases Room(start)
    {
      hide SearchFrom, TruncDiv, Consecutive;
      OffsetInArray(start, tick);
      var i := TruncDiv(tick - start, tickSpacing);
      var a := Content(start).value;
      var hit := SearchFrom(a, i);
      SearchFindsInitialized(a, i);
      Neighbours(start, starts[|starts| - 1]);
      if hit.Some? {
        OffsetAtOrPast(start, tick, hit.value);
        assert InitializedAt(start, hit.value);
      } else if Edge(start).None? {
        NextIsAt(start);
        FindIsSound(NextStart(start), NextTick(start));
        StillPast(start, tick);
      }
    }

    /** What is past the next array's first tick is past this one's. */
    lemma StillPast(start: int, tick: int)
      requires tickSpacing > 0 && At(start, tick)
      ensures NoFurther(tick, NextTick(start))
    {
    }

    /** A failed search names a load that failed in an array the swap may use. */
    lemma {:induction false} FindFails(start: int, tick: int)
      requires InBand() && start <= tick < start + Span(tickSpacing)
      requires Find(start, tick).Err?
      ensures exists s :: s in starts && Content(s).Err? && Content(s).error == Find(start, tick).error
      decreases Room(start)
    {
      hide SearchFrom, TruncDiv;
      OffsetInArray(start, tick);
      if Content(start).Ok? {
        FindFails(NextStart(start), NextTick(start));
      }
    }
  }

  // ---- queries that move with the swap ----

  function NewWalk(tickCurrent: int, tickSpacing: nat, aToB: bool, load: Loader): Walk
    requires tickSpacing > 0
  {
    Walk(tickSpacing, SwapTickArrayStarts(tickCurrent, tickSpacing, aToB), load, aToB)
  }

  /** A query from the pool's tick or past it in the swap direction. */
  predicate MovesOn(tickCurrent: int, fromTick: int, aToB: bool) {
    if aToB then fromTick <= tickCurrent else tickCurrent <= fromTick
  }

  lemma NewWalkIsRowed(tickCurrent: int, tickSpacing: nat, aToB: bool, load: Loader)
    requires tickSpacing > 0 && MIN_TICK - 1 <= tickCurrent <= MAX_TICK
    ensures NewWalk(tickCurrent, tickSpacing, aToB, load).Rowed()
  {
    StartsFollow(tickCurrent, tickSpacing, aToB);
  }

  /** A search starts inside an array, on the grid when it searches up, and past fromTick. */
  lemma QueryIsAt(w: Walk, fromTick: int)
    requires w.tickSpacing > 0
    ensures var tick := w.QueryTick(fromTick);
            w.At(ArrayStart(tick, w.tickSpacing), tick)
  {
    var tick := w.QueryTick(fromTick);
    var d, k := w.tickSpacing, FloorIndex(tick, Span(w.tickSpacing));
    if !w.aToB {
      var n := FloorIndex(fromTick, d) + 1;
      Distribute(d, FloorIndex(fromTick, d), 1);
      assert ArrayStart(tick, d) == k * Span(d);
      OnGrid(n, k, d);
      MultipleHasNoRemainder(n - k * TICKS_PER_ARRAY, d);
    }
  }

  lemma OnGrid(n: int, k: int, d: nat)
    ensures n * d - k * Span(d) == (n - k * TICKS_PER_ARRAY) * d
  {
    Distribute(d, n, k * TICKS_PER_ARRAY);
    assert k * (d * TICKS_PER_ARRAY) == k * TICKS_PER_ARRAY * d;
  }

  lemma StartIsMultiple(tickCurrent: int, tickSpacing: nat, aToB: bool, s: int) returns (j: int)
    requires tickSpacing > 0 && s in SwapTickArrayStarts(tickCurrent, tickSpacing, aToB)
    ensures s == j * Span(tickSpacing)
  {
    hide FirstOffset, ValidStart;
    var o, d := FirstOffset(tickCurrent, tickSpacing, aToB), Toward(aToB);
    var m :| (m == o || m == o + d || m == o + 2 * d)
             && s == ArrayStart(tickCurrent, tickSpacing) + m * Span(tickSpacing);
    j := FloorIndex(tickCurrent, Span(tickSpacing)) + m;
    Distribute(Span(tickSpacing), FloorIndex(tickCurrent, Span(tickSpacing)), m);
  }

  /** A tick of an array of the swap is a multiple of the tick spacing. */
  lemma TickOnGrid(tickCurrent: int, tickSpacing: nat, aToB: bool, load: Loader, s: int, k: nat) returns (n: int)
    requires tickSpacing > 0 && s in SwapTickArrayStarts(tickCurrent, tickSpacing, aToB)
    ensures NewWalk(tickCurrent, tickSpacing, aToB, load).TickIndex(s, k) == n * tickSpacing
  {
    hide SwapTickArrayStarts;
    var j := StartIsMultiple(tickCurrent, tickSpacing, aToB, s);
    n := j * TICKS_PER_ARRAY + k;
    SpansInSpacings(j, tickSpacing);
    Distribute(tickSpacing, j * TICKS_PER_ARRAY, k);
  }

  lemma SpansInSpacings(j: int, tickSpacing: nat)
    ensures j * Span(tickSpacing) == j * TICKS_PER_ARRAY * tickSpacing
  {
  }

  /** On the grid, at or past the query's first tick is at or past fromTick (strictly past, going up). */
  lemma QueryIsFromTick(w: Walk, fromTick: int, n: int)
    requires w.tickSpacing > 0
    ensures var t := n * w.tickSpacing;
            w.NoFurther(w.QueryTick(fromTick), t) <==> if w.aToB then t <= fromTick else fromTick < t
  {
    if !w.aToB {
      var d, k := w.tickSpacing, FloorIndex(fromTick, w.tickSpacing);
      Distribute(d, k, 1);
      if n <= k {
        Multiples(n, k, d);
      } else {
        Multiples(k + 1, n, d);
      }
    }
  }

  /** The query's array is at or past the swap's first array, a whole number of spans from it. */
  lemma QueryArray(tickCurrent: int, tickSpacing: nat, aToB: bool, load: Loader, fromTick: int) returns (m: nat)
    requires tickSpacing > 0 && MovesOn(tickCurrent, fromTick, aToB)
    ensures var span := Span(tickSpacing);
            var first := ArrayStart(tickCurrent, tickSpacing) + FirstOffset(tickCurrent, tickSpacing, aToB) * span;
            ArrayStart(NewWalk(tickCurrent, tickSpacing, aToB, load).QueryTick(fromTick), tickSpacing)
            == first + Toward(aToB) * (m * span)
  {
    hide FloorIndex, FirstOffset;
    var span, tick := Span(tickSpacing), NewWalk(tickCurrent, tickSpacing, aToB, load).QueryTick(fromTick);
    var o := FirstOffset(tickCurrent, tickSpacing, aToB);
    var f, k := FloorIndex(tickCurrent, span) + o, FloorIndex(tick, span);
    OffsetIsSmall(tickCurrent, tickSpacing, aToB);
    if aToB {
      FloorIndexIsGreatest(tickCurrent, span, k);
      m := f - k;
    } else {
      PastFirst(tickCurrent, tickSpacing, fromTick);
      FloorIndexIsGreatest(tick, span, f);
      m := k - f;
    }
    RowPosition(FloorIndex(tickCurrent, span), o, m, k, span, aToB);
  }

  lemma RowPosition(base: int, o: int, m: nat, k: int, span: nat, aToB: bool)
    requires k == base + o + Toward(aToB) * m
    ensures k * span == base * span + o * span + Toward(aToB) * (m * span)
  {
    Distribute(span, base, o);
    Distribute(span, base + o, m);
  }

  /** Going up, the first tick looked at is in or past the swap's first array. */
  lemma PastFirst(tickCurrent: int, tickSpacing: nat, fromTick: int)
    requires tickSpacing > 0 && tickCurrent <= fromTick
    ensures (FloorIndex(tickCurrent, Span(tickSpacing)) + FirstOffset(tickCurrent, tickSpacing, false))
            * Span(tickSpacing)
         <= FloorIndex(fromTick, tickSpacing) * tickSpacing + tickSpacing
  {
    var span, d := Span(tickSpacing), tickSpacing;
    var k := FloorIndex(tickCurrent, span);
    Distribute(span, k, 1);
    if FirstOffset(tickCurrent, tickSpacing, false) == 1 {
      var n := (k + 1) * TICKS_PER_ARRAY - 1;
      SpansInSpacings(k + 1, d);
      Distribute(d, (k + 1) * TICKS_PER_ARRAY, 1);
      FloorIndexIsGreatest(fromTick, d, n);
      Multiples(n, FloorIndex(fromTick, d), d);
    }
  }

  lemma RowHolds(starts: seq<int>, first: int, span: nat, aToB: bool, m: nat)
    requires Consecutive(starts, first, span, aToB) && m < |starts|
    ensures first + Toward(aToB) * (m * span) in starts
  {
    assert starts[m] in starts;
  }

  /** A query whose array is not in the row is past the whole row. */
  lemma PastTheRow(w: Walk, first: int, m: nat, s: int, k: nat, tick: int)
    requires w.InBand() && Consecutive(w.starts, first, Span(w.tickSpacing), w.aToB)
    requires var start := first + Toward(w.aToB) * (m * Span(w.tickSpacing)); start !in w.starts && w.At(start, tick)
    requires s in w.starts && k < TICKS_PER_ARRAY
    ensures !w.NoFurther(tick, w.TickIndex(s, k))
  {
    var i :| 0 <= i < |w.starts| && w.starts[i] == s;
    if m < |w.starts| {
      RowHolds(w.starts, first, Span(w.tickSpacing), w.aToB, m);
    }
    w.RowOrder(first, i, m, Span(w.tickSpacing));
    w.WithinSpan(s, k);
  }

  /** For a query that moves with the swap: no initialized tick of the arrays the swap may use, at or past
      fromTick, is nearer than the answer; in particular there is an answer whenever there is such a tick,
      and the far edge is answered only when no such tick lies in the tick range. */
  lemma AnswerIsNearest(tickCurrent: int, tickSpacing: nat, aToB: bool, load: Loader, fromTick: int, s: int, k: nat)
    requires tickSpacing > 0 && MIN_TICK - 1 <= tickCurrent <= MAX_TICK && MovesOn(tickCurrent, fromTick, aToB)
    ensures var w := NewWalk(tickCurrent, tickSpacing, aToB, load);
            && w.InBand()
            && (w.Next(fromTick).Ok? && w.InitializedAt(s, k)
                && (if aToB then w.TickIndex(s, k) <= fromTick else fromTick < w.TickIndex(s, k)) ==>
                  var b := w.Next(fromTick).value;
                  && b.Some? && w.NoFurther(b.value.tickIndex, w.TickIndex(s, k))
                  && (!b.value.initialized ==> !InRange(w.TickIndex(s, k))))
  {
    hide SwapTickArrayStarts, ArrayStart, FirstOffset, Consecutive, Walk.QueryTick, Walk.Find;
    var w := NewWalk(tickCurrent, tickSpacing, aToB, load);
    NewWalkIsRowed(tickCurrent, tickSpacing, aToB, load);
    if w.Next(fromTick).Ok? && w.InitializedAt(s, k) {
      var tick := w.QueryTick(fromTick);
      QueryIsAt(w, fromTick);
      var n := TickOnGrid(tickCurrent, tickSpacing, aToB, load, s, k);
      QueryIsFromTick(w, fromTick, n);
      if w.NoFurther(tick, w.TickIndex(s, k)) {
        if ArrayStart(tick, tickSpacing) in w.starts {
          w.FindsNearest(ArrayStart(tick, tickSpacing), tick, s, k);
        } else {
          StartsFollow(tickCurrent, tickSpacing, aToB);
          var m := QueryArray(tickCurrent, tickSpacing, aToB, load, fromTick);
          var offset := FirstOffset(tickCurrent, tickSpacing, aToB);
          PastTheRow(w, ArrayStart(tickCurrent, tickSpacing) + offset * Span(tickSpacing), m, s, k, tick);
        }
      }
    }
  }

  /** What an answer is: an initialized tick of the arrays the swap may use, or their far edge; nothing only
      for a query past them; an error only when a load among them failed. */
  lemma AnswerIsSound(tickCurrent: int, tickSpacing: nat, aToB: bool, load: Loader, fromTick: int)
    requires tickSpacing > 0 && MIN_TICK - 1 <= tickCurrent <= MAX_TICK
    ensures var w := NewWalk(tickCurrent, tickSpacing, aToB, load);
            && w.InBand()
            && var answer, start := w.Next(fromTick), ArrayStart(w.QueryTick(fromTick), tickSpacing);
            match answer
            case Ok(Some(b)) => w.Sound(w.QueryTick(fromTick), b)
            case Ok(None) => start !in w.starts
            case Err(e) => exists bad :: bad in w.starts && w.Content(bad).Err? && w.Content(bad).error == e
  {
    hide SwapTickArrayStarts, ArrayStart, Consecutive, Walk.QueryTick, Walk.Content, Walk.Sound;
    var w := NewWalk(tickCurrent, tickSpacing, aToB, load);
    NewWalkIsRowed(tickCurrent, tickSpacing, aToB, load);
    var tick := w.QueryTick(fromTick);
    QueryIsAt(w, fromTick);
    if w.Next(fromTick).Err? {
      w.FindFails(ArrayStart(tick, tickSpacing), tick);
    } else if ArrayStart(tick, tickSpacing) in w.starts {
      w.FindIsSound(ArrayStart(tick, tickSpacing), tick);
    }
  }

  // ---- as the provider of a run ----

  /** The ticks a run asks from: short of its limit, it stands inside the tick range. */
  predicate RunAsks(fromTick: int, aToB: bool) {
    if aToB then MIN_TICK <= fromTick else MIN_TICK - 1 <= fromTick < MAX_TICK
  }

  lemma RunsAskInRange(s: OrcaRun.State, aToB: bool)
    requires OrcaRun.Positioned(s, aToB) && s.sqrtPrice != OrcaRun.Limit(aToB)
    ensures RunAsks(s.tick, aToB)
  {
    hide OrcaPrice, OrcaRun.FeePositioned;
    OrcaRun.InsideRange(s, aToB);
  }

  /** While input is left each query of a run starts strictly past the one before, so all of them move
      with the swap. */
  lemma RunQueriesMoveOn(s: OrcaRun.State, b: OrcaRun.Boundary, aToB: bool)
    requires OrcaRun.Positioned(s, aToB) && OrcaRun.StopFrom(s.tick, b, aToB)
    ensures OrcaRun.Approaching(s, b, aToB)
    ensures var walked := OrcaRun.StepToBoundary(s, b, aToB);
            walked.Ok? && walked.value.remaining > 0 ==>
              if aToB then walked.value.tick < s.tick else s.tick < walked.value.tick
  {
    hide OrcaRun.Positioned, OrcaRun.Approaching, OrcaRun.StepToBoundary, OrcaPrice;
    OrcaRun.AtBoundary(s, b, aToB);
    OrcaRun.StepToBoundarySound(s, b, aToB);
  }

  /** The pure provider the walker refines, on the ticks a run asks from; no boundary after an error. */
  function Provider(w: Walk): OrcaRun.TickProvider
    requires w.InBand()
  {
    (fromTick: int, aToB: bool) =>
      if !RunAsks(fromTick, w.aToB) then None
      else match w.Next(fromTick) case Ok(b) => b case Err(_) => None
  }

  lemma FarEdgeAhead(w: Walk, fromTick: int)
    requires w.Rowed() && RunAsks(fromTick, w.aToB)
    requires ArrayStart(w.QueryTick(fromTick), w.tickSpacing) in w.starts
    ensures OrcaRun.StopFrom(fromTick, OrcaRun.Boundary(w.FarEdge(), None, false), w.aToB)
  {
    hide Consecutive, FloorIndex;
    var tick := w.QueryTick(fromTick);
    QueryIsAt(w, fromTick);
    w.Neighbours(ArrayStart(tick, w.tickSpacing), w.starts[|w.starts| - 1]);
  }

  /** Over arrays whose initialized ticks lie in the tick range, the walker honours the contract every run
      theorem assumes. */
  lemma WalkerHonours(tickCurrent: int, tickSpacing: nat, aToB: bool, load: Loader)
    requires tickSpacing > 0 && MIN_TICK - 1 <= tickCurrent <= MAX_TICK
    requires var w := NewWalk(tickCurrent, tickSpacing, aToB, load);
             forall s: int, k: nat :: w.InitializedAt(s, k) ==> InRange(w.TickIndex(s, k))
    ensures NewWalk(tickCurrent, tickSpacing, aToB, load).InBand()
    ensures OrcaRun.Honours(Provider(NewWalk(tickCurrent, tickSpacing, aToB, load)), aToB)
  {
    hide SwapTickArrayStarts, ArrayStart, Consecutive, Walk.QueryTick, Walk.Content, Walk.Next, Walk.FarEdge, InRange;
    var w := NewWalk(tickCurrent, tickSpacing, aToB, load);
    NewWalkIsRowed(tickCurrent, tickSpacing, aToB, load);
    forall t: int ensures Provider(w)(t, aToB).Some? ==> OrcaRun.StopFrom(t, Provider(w)(t, aToB).value, aToB) {
      AnswerIsSound(tickCurrent, tickSpacing, aToB, load, t);
      if Provider(w)(t, aToB).Some? {
        var b := Provider(w)(t, aToB).value;
        if b.initialized {
          var s: int, k: nat :| w.InitializedAt(s, k) && w.NoFurther(w.QueryTick(t), w.TickIndex(s, k))
                                && b == OrcaRun.Boundary(w.TickIndex(s, k),
                                                         Some(w.Content(s).value[k].liquidityNet), true);
          var n := TickOnGrid(tickCurrent, tickSpacing, aToB, load, s, k);
          QueryIsFromTick(w, t, n);
        } else {
          AnsweredInRow(w, t);
          FarEdgeAhead(w, t);
        }
      }
    }
  }

  lemma AnsweredInRow(w: Walk, fromTick: int)
    requires w.InBand() && w.Next(fromTick).Ok? && w.Next(fromTick).value.Some?
    ensures ArrayStart(w.QueryTick(fromTick), w.tickSpacing) in w.starts
  {
  }

  // ---- adaptive-fee tracking over the walker ----

  /** Searching on from the uninitialized far edge of an upward walk finds nothing: it starts in the array after
      the last. */
  lemma NothingPastFarEdge(tickCurrent: int, tickSpacing: nat, load: Loader)
    requires tickSpacing > 0 && MIN_TICK - 1 <= tickCurrent <= MAX_TICK
    requires SwapTickArrayStarts(tickCurrent, tickSpacing, false) != []
    ensures var w := NewWalk(tickCurrent, tickSpacing, false, load);
            w.InBand() && w.Next(w.starts[|w.starts| - 1] + Span(tickSpacing) - 1) == Ok(None)
  {
    hide SwapTickArrayStarts, Consecutive, FloorIndex;
    var w, span := NewWalk(tickCurrent, tickSpacing, false, load), Span(tickSpacing);
    NewWalkIsRowed(tickCurrent, tickSpacing, false, load);
    var last := w.starts[|w.starts| - 1];
    var j := StartIsMultiple(tickCurrent, tickSpacing, false, last);
    SpansInSpacings(j + 1, tickSpacing);
    Distribute(span, j, 1);
    JustBelowMultiple((j + 1) * TICKS_PER_ARRAY, tickSpacing);
    FloorIndexOfMultiple(j + 1, span);
    if last + span in w.starts {
      w.Neighbours(last, last + span);
    }
  }

  lemma JustBelowMultiple(n: int, d: nat)
    requires d > 0
    ensures FloorIndex(n * d - 1, d) * d + d == n * d
  {
    Distribute(d, n, 1);
    FloorIndexIsGreatest(n * d - 1, d, n - 1);
    MultipleOrder(FloorIndex(n * d - 1, d), n - 1, d);
  }

  /** Every answer is aligned to groups that divide the tick spacing, is the end of the tick range, or is the
      last one there is. */
  lemma AnswerIsAligned(tickCurrent: int, tickSpacing: nat, aToB: bool, load: Loader,
                        groupSize: nat, q: nat, fromTick: int)
    requires tickSpacing > 0 && MIN_TICK - 1 <= tickCurrent <= MAX_TICK && groupSize > 0 && tickSpacing == q * groupSize
    ensures var w := NewWalk(tickCurrent, tickSpacing, aToB, load);
            && w.InBand()
            && var answer := Provider(w)(fromTick, aToB);
            answer.Some? ==>
              var b := answer.value;
              || OrcaTracking.Aligned(b, groupSize)
              || OrcaPrice(b.tickIndex) == OrcaRun.Limit(aToB)
              || Provider(w)(if aToB then b.tickIndex - 1 else b.tickIndex, aToB).None?
  {
    hide SwapTickArrayStarts, ArrayStart, Consecutive, Walk.QueryTick, Walk.Content, Walk.Next, OrcaPrice, TruncMod;
    var w := NewWalk(tickCurrent, tickSpacing, aToB, load);
    NewWalkIsRowed(tickCurrent, tickSpacing, aToB, load);
    AnswerIsSound(tickCurrent, tickSpacing, aToB, load, fromTick);
    if Provider(w)(fromTick, aToB).Some? {
      var b := Provider(w)(fromTick, aToB).value;
      if b.initialized {
        var s: int, k: nat :| w.InitializedAt(s, k) && w.NoFurther(w.QueryTick(fromTick), w.TickIndex(s, k))
                              && b == OrcaRun.Boundary(w.TickIndex(s, k),
                                                       Some(w.Content(s).value[k].liquidityNet), true);
        var n := TickOnGrid(tickCurrent, tickSpacing, aToB, load, s, k);
        GridIsAligned(n, q, groupSize);
      } else {
        OrcaPriceBounds();
        var last := w.starts[|w.starts| - 1];
        if aToB {
          var j := StartIsMultiple(tickCurrent, tickSpacing, aToB, last);
          SpansInSpacings(j, tickSpacing);
          GridIsAligned(j * TICKS_PER_ARRAY, q, groupSize);
        } else {
          NothingPastFarEdge(tickCurrent, tickSpacing, load);
        }
      }
    }
  }

  lemma GridIsAligned(n: int, q: nat, groupSize: nat)
    requires groupSize > 0
    ensures TruncMod(n * (q * groupSize), groupSize) == 0
  {
    assert n * (q * groupSize) == (n * q) * groupSize;
    MultipleHasNoRemainder(n * q, groupSize);
  }

  /** Where the group size divides the tick spacing, all stops of the walker but its last are aligned. */
  lemma WalkerAligned(tickCurrent: int, tickSpacing: nat, aToB: bool, load: Loader, groupSize: nat, q: nat)
    requires tickSpacing > 0 && MIN_TICK - 1 <= tickCurrent <= MAX_TICK && groupSize > 0 && tickSpacing == q * groupSize
    ensures NewWalk(tickCurrent, tickSpacing, aToB, load).InBand()
    ensures OrcaTracking.AlignedUntilLast(Provider(NewWalk(tickCurrent, tickSpacing, aToB, load)), aToB, groupSize)
  {
    hide SwapTickArrayStarts, Walk.Next, OrcaPrice, TruncMod, Consecutive;
    NewWalkIsRowed(tickCurrent, tickSpacing, aToB, load);
    var ticks := Provider(NewWalk(tickCurrent, tickSpacing, aToB, load));
    forall t: int | ticks(t, aToB).Some?
      ensures var b := ticks(t, aToB).value;
              OrcaTracking.Aligned(b, groupSize) || OrcaPrice(b.tickIndex) == OrcaRun.Limit(aToB)
              || ticks(if aToB then b.tickIndex - 1 else b.tickIndex, aToB).None?
    {
      AnswerIsAligned(tickCurrent, tickSpacing, aToB, load, groupSize, q, t);
    }
  }

  /** Adaptive-fee tracking for the quotes the program makes: over the walker's own arrays, on a pool whose
      group size divides its tick spacing, the group holds the next price segment at every step of every quote
      and skips are flat. */
  lemma WalkerQuoteTracks(pool: OrcaQuote.Pool, aToB: bool, amountIn: nat, tickSpacing: nat, load: Loader, q: nat)
    requires pool.Consistent() && amountIn <= U64MAX
    requires pool.sqrtPrice.Some? && pool.liquidity.Some? && pool.adaptiveFee.Some?
    requires tickSpacing > 0 && tickSpacing == q * pool.adaptiveFee.value.constants.groupSize
    requires var w := NewWalk(pool.tickCurrentIndex, tickSpacing, aToB, load);
             forall s: int, k: nat :: w.InitializedAt(s, k) ==> InRange(w.TickIndex(s, k))
    ensures var w := NewWalk(pool.tickCurrentIndex, tickSpacing, aToB, load);
            && w.InBand() && OrcaRun.Honours(Provider(w), aToB)
            && var fee := OrcaFee.NewFee(aToB, pool.tickCurrentIndex, pool.timestamp, pool.feeRate, pool.adaptiveFee);
            fee.Some? ==>
              var s := OrcaQuote.NewState(pool, fee.value, amountIn);
              && OrcaRun.Positioned(s, aToB)
              && forall k :: 0 <= k < |OrcaTracking.Trail(s, aToB, Provider(w))| ==>
                               OrcaTracking.OnCourse(OrcaTracking.Trail(s, aToB, Provider(w))[k].0,
                                                     OrcaTracking.Trail(s, aToB, Provider(w))[k].1, aToB)
  {
    hide SwapTickArrayStarts, Walk.Next, OrcaPrice, Consecutive, OrcaTracking.AlignedUntilLast, OrcaTracking.Trail,
      OrcaTracking.OnCourse, OrcaFee.NewFee, OrcaRun.Positioned, OrcaRun.Honours;
    WalkerHonours(pool.tickCurrentIndex, tickSpacing, aToB, load);
    WalkerAligned(pool.tickCurrentIndex, tickSpacing, aToB, load, pool.adaptiveFee.value.constants.groupSize, q);
    OrcaQuote.QuoteTracks(pool, aToB, amountIn, Provider(NewWalk(pool.tickCurrentIndex, tickSpacing, aToB, load)));
  }

  // ---- the program ----

  class TickArrayWalker {
    const tickSpacing: nat
    const starts: seq<int>
    const load: Loader

    var start: int
    var loaded: bool
    var ticks: TickArray
    var err: Option<LoadError>

    function Model(aToB: bool): Walk {
      Walk(tickSpacing, starts, load, aToB)
    }

    /** The held array is what its start reads as. */
    ghost predicate Valid()
      reads this
    {
      && Model(true).InBand() && Model(false).InBand()
      && (loaded ==> Model(true).Content(start) == Ok(ticks))
    }

    constructor (tickCurrent: int, tickSpacing': nat, aToB: bool, load': Loader)
      requires tickSpacing' > 0 && MIN_TICK - 1 <= tickCurrent <= MAX_TICK
      ensures Valid() && Model(aToB) == NewWalk(tickCurrent, tickSpacing', aToB, load') && err.None?
    {
      NewWalkIsRowed(tickCurrent, tickSpacing', aToB, load');
      tickSpacing, load := tickSpacing', load';
      starts := SwapTickArrayStarts(tickCurrent, tickSpacing', aToB);
      start, loaded, ticks, err := 0, false, EmptyArray(), None;
    }

    method Reachable(s: int) returns (reachable: bool)
      ensures reachable <==> s in starts
    {
      for i := 0 to |starts|
        invariant s !in starts[..i]
      {
        if starts[i] == s {
          return true;
        }
      }
      return false;
    }

    /** Makes the array at `s` the held one. */
    method LoadArray(s: int) returns (ok: bool)
      requires Valid() && err.None?
      modifies this
      ensures Valid()
      ensures ok <==> Model(true).Content(s).Ok?
      ensures ok ==> loaded && start == s && Model(true).Content(s) == Ok(ticks) && err.None?
      ensures !ok ==> err == Some(Model(true).Content(s).error)
    {
      if loaded && start == s {
        return true;
      }
      var found := load(s);
      if found.Err? {
        err := Some(found.error);
        return false;
      }
      ticks := if found.value.None? then EmptyArray() else found.value.value;
      start := s;
      loaded := true;
      return true;
    }

    /** The nearest initialized tick from an offset in the held array. */
    method SearchArray(offset: int, aToB: bool) returns (found: Option<nat>)
      requires 0 <= offset < TICKS_PER_ARRAY
      ensures found == Model(aToB).SearchFrom(ticks, offset)
    {
      var i := offset;
      if aToB {
        while i >= 0
          invariant -1 <= i < TICKS_PER_ARRAY
                    && Model(aToB).SearchFrom(ticks, i) == Model(aToB).SearchFrom(ticks, offset)
        {
          if ticks[i].initialized {
            return Some(i);
          }
          i := i - 1;
        }
        return None;
      }
      while i < TICKS_PER_ARRAY
        invariant 0 <= i <= TICKS_PER_ARRAY && Model(aToB).SearchFrom(ticks, i) == Model(aToB).SearchFrom(ticks, offset)
      {
        if ticks[i].initialized {
          return Some(i);
        }
        i := i + 1;
      }
      return None;
    }

    /** floor to the tick spacing, from a truncating division. */
    function FloorToSpacing(tick: int): int
      requires tickSpacing > 0
      ensures FloorToSpacing(tick) == FloorIndex(tick, tickSpacing) * tickSpacing
    {
      var floored := TruncDiv(tick, tickSpacing) * tickSpacing;
      Distribute(tickSpacing, TruncDiv(tick, tickSpacing), 1);
      if tick < 0 && TruncMod(tick, tickSpacing) != 0 then floored - tickSpacing else floored
    }

    /** One turn of the search: the array at `s` either settles the query or passes it on. */
    method SearchOne(s: int, tick: int, aToB: bool) returns (settled: bool, found: Option<OrcaRun.Boundary>)
      requires Valid() && err.None? && s <= tick < s + Span(tickSpacing)
      modifies this
      ensures Valid()
      ensures settled ==>
                match Model(aToB).Find(s, tick)
                case Ok(b) => found == b && err.None?
                case Err(e) => found.None? && err == Some(e)
      ensures !settled ==>
                var w := Model(aToB);
                && err.None? && w.Room(w.NextStart(s)) < w.Room(s)
                && w.Find(s, tick) == w.Find(w.NextStart(s), w.NextTick(s))
    {
      hide Walk.Find, Walk.Room, Walk.SearchFrom, TruncDiv, EmptyArray;
      Model(aToB).FindUnfolds(s, tick);
      var reachable := Reachable(s);
      if !reachable {
        return true, None;
      }
      var ok := LoadArray(s);
      if !ok {
        return true, None;
      }
      var offset := SearchArray(TruncDiv(tick - s, tickSpacing), aToB);
      if offset.Some? {
        return true,
            Some(OrcaRun.Boundary(s + offset.value * tickSpacing, Some(ticks[offset.value].liquidityNet), true));
      }
      var span := tickSpacing * TICKS_PER_ARRAY;
      if aToB && s <= MIN_TICK {
        return true, Some(OrcaRun.Boundary(MIN_TICK, None, false));
      }
      if !aToB && s + span > MAX_TICK {
        return true, Some(OrcaRun.Boundary(MAX_TICK, None, false));
      }
      if s == starts[|starts| - 1] {
        return true, Some(OrcaRun.Boundary(if aToB then s else s + span - 1, None, false));
      }
      return false, None;
    }

    /** The tick provider, holding one array at a time, answers exactly as the search over all of them; the
        first load error is kept and stops every later query. */
    method Next(fromTick: int, aToB: bool) returns (found: Option<OrcaRun.Boundary>)
      requires Valid()
      modifies this
      ensures Valid()
      ensures old(err).Some? ==> found.None? && err == old(err)
      ensures old(err).None? ==>
                match Model(aToB).Next(fromTick)
                case Ok(b) => found == b && err.None?
                case Err(e) => found.None? && err == Some(e)
    {
      if err.Some? {
        return None;
      }
      hide Walk.Find, Walk.Room, FloorIndex, TruncDiv, TruncMod, Walk.Content;
      var tick := fromTick;
      if !aToB {
        tick := FloorToSpacing(fromTick) + tickSpacing;
      }
      var span := tickSpacing * TICKS_PER_ARRAY;
      var s := ArrayStart(tick, tickSpacing);
      while true
        invariant Valid() && err.None? && s <= tick < s + span
        invariant Model(aToB).Find(s, tick) == Model(aToB).Next(fromTick)
        decreases Model(aToB).Room(s)
      {
        var settled;
        settled, found := SearchOne(s, tick, aToB);
        if settled {
          return;
        }
        s := if aToB then s - span else s + span;
        tick := if aToB then s + span - tickSpacing else s;
      }
    }
  }

  /** The quote as the program makes it: the loop asks the stateful walker, whose answers are those of the pure
      search; a load error ends the quote and is left with the walker. */
  method QuoteOverWalker(pool: OrcaQuote.Pool, aToB: bool, amountIn: nat, walker: TickArrayWalker)
    returns (quote: Result<OrcaQuote.QuoteResult, OrcaMath.Error>)
    requires pool.Consistent() && amountIn <= U64MAX
    requires walker.Valid() && walker.err.None? && OrcaRun.Honours(Provider(walker.Model(aToB)), aToB)
    modifies walker
    ensures walker.Valid()
    ensures quote == OrcaQuote.QuoteExactIn(pool, aToB, amountIn, Provider(walker.Model(aToB)))
    ensures walker.err.Some? ==> quote.Ok? && exists t :: walker.Model(aToB).Next(t) == Err(walker.err.value)
  {
    hide OrcaPrice, OrcaRun.StepOnce, OrcaRun.Approaching, OrcaRun.Positioned, OrcaRun.StepToBoundary,
      OrcaRun.GroupsLeft, OrcaRun.TicksLeft, OrcaFee.NewFee, OrcaRun.FeePositioned, OrcaTracking.CoreBuilt,
      RaydiumMath.WithinSpot, Walk.Next, InRange, OrcaFee.Fee.GroupEdge, OrcaRun.Bracketed;
    ghost var w, ticks := walker.Model(aToB), Provider(walker.Model(aToB));
    if pool.sqrtPrice.None? || pool.liquidity.None? {
      return Err(OrcaMath.InvalidPool);
    }
    OrcaQuote.NewFeeSound(pool, aToB);
    if OrcaFee.NewFee(aToB, pool.tickCurrentIndex, pool.timestamp, pool.feeRate, pool.adaptiveFee).None? {
      return Err(OrcaMath.InvalidPool);
    }
    var mgr := new OrcaQuote.FeeRateManager(aToB, pool.tickCurrentIndex, pool.timestamp,
                                            pool.feeRate, pool.adaptiveFee);
    var limit := OrcaRun.Limit(aToB);
    var remaining: nat, out: nat := amountIn, 0;
    var price: nat, liquidity: nat, tick := pool.sqrtPrice.value, pool.liquidity.value, pool.tickCurrentIndex;
    ghost var start := OrcaQuote.NewState(pool, mgr.Model(), amountIn);
    OrcaQuote.NewStatePositioned(pool, mgr.Model(), amountIn, aToB);
    OrcaRun.RunSound(start, aToB, ticks);
    while remaining > 0 && price != limit
      invariant walker.Valid() && walker.err.None? && fresh(mgr) && remaining <= amountIn
      invariant OrcaRun.Positioned(OrcaRun.State(remaining, out, price, liquidity, tick, mgr.Model()), aToB)
      invariant OrcaRun.Run(OrcaRun.State(remaining, out, price, liquidity, tick, mgr.Model()), aToB, ticks)
             == OrcaRun.Run(start, aToB, ticks)
      decreases remaining > 0,
                OrcaRun.TicksLeft(OrcaRun.State(remaining, out, price, liquidity, tick, mgr.Model()), aToB)
    {
      ghost var s := OrcaRun.State(remaining, out, price, liquidity, tick, mgr.Model());
      RunsAskInRange(s, aToB);
      var stop := walker.Next(tick, aToB);
      if stop.None? {
        break;
      }
      var b := stop.value;
      assert ticks(tick, aToB) == Some(b);
      OrcaRun.AtBoundary(s, b, aToB);
      OrcaQuote.WalkMeasure(s, b, aToB);
      var err;
      err, remaining, out, price, liquidity, tick :=
        OrcaQuote.WalkToBoundary(mgr, remaining, out, price, liquidity, tick, b, aToB);
      if err.Some? {
        return Err(err.value);
      }
    }
    quote := Ok(OrcaQuote.QuoteResult(out, amountIn - remaining));
  }
}
