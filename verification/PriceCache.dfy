/** The direct-mapped memo in front of the DLMM bin price: a shared table read and overwritten under a
    lock, values copied out. Every call answers with the price of its own arguments, under every
    interleaving of callers, slot collisions and callers overwriting what they were given. */
module PriceCache {
  import opened Rounding
  import opened Wrappers
  import opened MachineIntegers
  import opened FixedPow
  import opened DlmmMath

  const CACHE_SIZE: nat := 4096
  const GOLDEN_RATIO: nat := 0x9E37_79B9_7F4A_7C15
  /** 2^(64 - 12). */
  const SLOT_WIDTH: nat := 0x10_0000_0000_0000

  type BinStep = n: nat | n <= 0xFFFF

  type Id = n: int | -0x8000_0000 <= n < 0x8000_0000

  /** The two arguments in one word; the halves do not overlap, so the bitwise or is a sum. */
  function PriceKey(id: Id, binStep: BinStep): nat {
    Uint32(id) + binStep * TWO32
  }

  /** Fibonacci hashing of the key. */
  function PriceSlot(key: nat): (slot: nat)
    ensures slot < CACHE_SIZE
  {
    FloorAdjoint(CACHE_SIZE, Uint64(key * GOLDEN_RATIO), SLOT_WIDTH);
    FloorDiv(Uint64(key * GOLDEN_RATIO), SLOT_WIDTH)
  }

  /** No two argument pairs share a key, so comparing keys compares arguments. */
  lemma KeyInjective(id: Id, binStep: BinStep, other: Id, otherStep: BinStep)
    requires PriceKey(id, binStep) == PriceKey(other, otherStep)
    ensures id == other && binStep == otherStep
  {
    FloorUnique(binStep, PriceKey(id, binStep), TWO32);
    FloorUnique(otherStep, PriceKey(other, otherStep), TWO32);
  }

  /** `price` is the price of whatever arguments `key` packs. */
  ghost predicate Holds(key: nat, price: nat) {
    forall id: Id, binStep: BinStep :: PriceKey(id, binStep) == key ==> PriceFromID(id, binStep) == Ok(price)
  }

  lemma OwnKeyHolds(id: Id, binStep: BinStep, price: nat)
    requires PriceFromID(id, binStep) == Ok(price)
    ensures Holds(PriceKey(id, binStep), price)
  {
    hide PriceKey, PriceFromID;
    forall other: Id, otherStep: BinStep | PriceKey(other, otherStep) == PriceKey(id, binStep)
      ensures PriceFromID(other, otherStep) == Ok(price)
    {
      KeyInjective(other, otherStep, id, binStep);
    }
  }

  // ---- one caller at a time, over the real table ----

  /** A big integer on the heap: whoever holds the reference may overwrite it. */
  class BigInt {
    var value: nat

    constructor (v: nat)
      ensures value == v
    {
      value := v;
    }
  }

  datatype Entry = Entry(key: nat, value: BigInt)

  class Cache {
    const entries: array<Option<Entry>>
    /** The integers the table may point at. */
    ghost var stored: set<BigInt>

    ghost predicate Valid()
      reads this, entries, stored
    {
      && entries.Length == CACHE_SIZE
      && forall i :: 0 <= i < entries.Length && entries[i].Some? ==>
                       entries[i].value.value in stored && Holds(entries[i].value.key, entries[i].value.value.value)
    }

    constructor ()
      ensures Valid() && fresh(entries) && stored == {}
    {
      entries := new Option<Entry>[CACHE_SIZE](i => None);
      stored := {};
    }

    /** cachedPriceFromID: a copy of the stored price, computed and stored first on a miss. */
    method CachedPriceFromID(id: Id, binStep: BinStep) returns (price: Result<BigInt, Error>)
      requires Valid()
      modifies this`stored, entries
      ensures Valid() && fresh(stored - old(stored))
      ensures match price
              case Ok(p) => fresh(p) && p !in stored && PriceFromID(id, binStep) == Ok(p.value)
              case Err(e) => PriceFromID(id, binStep) == Err(e)
    {
      hide PriceFromID, PriceKey, PriceSlot;
      var key := PriceKey(id, binStep);
      var slot := PriceSlot(key);
      var entry := entries[slot];
      if entry.Some? && entry.value.key == key {
        var copy := new BigInt(entry.value.value.value);
        return Ok(copy);
      }
      var computed := ComputePriceFromID(id, binStep);
      if computed.Err? {
        return Err(computed.error);
      }
      OwnKeyHolds(id, binStep, computed.value);
      var value := new BigInt(computed.value);
      entries[slot] := Some(Entry(key, value));
      stored := stored + {value};
      var copy := new BigInt(value.value);
      return Ok(copy);
    }
  }

  /** A caller overwriting an integer it was given leaves the table as good as it was. */
  method Overwrite(cache: Cache, given: BigInt, v: nat)
    requires cache.Valid() && given !in cache.stored
    modifies given
    ensures cache.Valid() && given.value == v
  {
    given.value := v;
  }

  // ---- every interleaving ----

  /** A table entry: its key and the address of its value. */
  datatype Cell = Cell(key: nat, address: nat)

  /** Where a caller stands inside its call. */
  datatype Phase =
    | Called(id: Id, binStep: BinStep)
    | Missed(id: Id, binStep: BinStep)
    | Computed(id: Id, binStep: BinStep, address: nat)
    | Holding(id: Id, binStep: BinStep, address: nat)
    | Returned(id: Id, binStep: BinStep, answer: Result<nat, Error>)

  /** Integers by address, the table, the callers, and the addresses callers were given. */
  datatype State = State(heap: map<nat, nat>, table: map<nat, Cell>, phases: map<nat, Phase>, given: set<nat>)

  ghost predicate Initial(s: State) {
    s.table == map[] && s.phases == map[] && s.given <= s.heap.Keys
  }

  datatype Action =
    | Call(caller: nat, id: Id, binStep: BinStep)
    | Lookup(caller: nat)
    | Compute(caller: nat, at: nat)
    | Store(caller: nat)
    | Return(caller: nat, at: nat)
    | CallerOverwrites(at: nat, value: nat)

  /** One atomic step. Locked reads and writes are single steps; everything between them interleaves. */
  ghost predicate Step(s: State, n: State, a: Action) {
    match a
    case Call(c, id, binStep) =>
      && (c in s.phases ==> s.phases[c].Returned?)
      && n == s.(phases := s.phases[c := Called(id, binStep)])
    case Lookup(c) =>
      && c in s.phases && s.phases[c].Called?
      && var p := s.phases[c];
      var key := PriceKey(p.id, p.binStep);
      var slot := PriceSlot(key);
      var hit := slot in s.table && s.table[slot].key == key;
      var found := if hit then Holding(p.id, p.binStep, s.table[slot].address) else Missed(p.id, p.binStep);
      n == s.(phases := s.phases[c := found])
    case Compute(c, at) =>
      && c in s.phases && s.phases[c].Missed? && at !in s.heap
      && var p := s.phases[c];
      (match PriceFromID(p.id, p.binStep)
       case Err(e) => n == s.(phases := s.phases[c := Returned(p.id, p.binStep, Err(e))])
       case Ok(v) => n == s.(heap := s.heap[at := v], phases := s.phases[c := Computed(p.id, p.binStep, at)]))
    case Store(c) =>
      && c in s.phases && s.phases[c].Computed?
      && var p := s.phases[c];
      var key := PriceKey(p.id, p.binStep);
      n == s.(table := s.table[PriceSlot(key) := Cell(key, p.address)],
      phases := s.phases[c := Holding(p.id, p.binStep, p.address)])
    case Return(c, at) =>
      && c in s.phases && s.phases[c].Holding? && at !in s.heap && s.phases[c].address in s.heap
      && var p := s.phases[c];
      n == s.(heap := s.heap[at := s.heap[p.address]], given := s.given + {at},
      phases := s.phases[c := Returned(p.id, p.binStep, Ok(at))])
    case CallerOverwrites(at, value) =>
      && at in s.given
      && n == s.(heap := s.heap[at := value])
  }

  /** An address whose integer no caller can reach and which holds the price of the arguments. */
  ghost predicate Private(s: State, address: nat) {
    address in s.heap && address !in s.given
  }

  ghost predicate PhaseSound(s: State, p: Phase) {
    match p
    case Called(_, _) => true
    case Missed(_, _) => true
    case Computed(id, binStep, at) => Private(s, at) && PriceFromID(id, binStep) == Ok(s.heap[at])
    case Holding(id, binStep, at) => Private(s, at) && PriceFromID(id, binStep) == Ok(s.heap[at])
    case Returned(id, binStep, answer) => answer.Err? ==> PriceFromID(id, binStep) == Err(answer.error)
  }

  ghost predicate Inv(s: State) {
    && s.given <= s.heap.Keys
    && (forall slot :: slot in s.table ==>
                         Private(s, s.table[slot].address) && Holds(s.table[slot].key, s.heap[s.table[slot].address]))
    && (forall c :: c in s.phases ==> PhaseSound(s, s.phases[c]))
  }

  /** Every step keeps it, whoever takes it. */
  lemma StepKeepsInv(s: State, n: State, a: Action)
    requires Inv(s) && Step(s, n, a)
    ensures Inv(n)
  {
    hide PriceFromID, PriceKey, PriceSlot, Holds;
    match a
    case Lookup(c) =>
      var p := s.phases[c];
      var slot := PriceSlot(PriceKey(p.id, p.binStep));
      if slot in s.table && s.table[slot].key == PriceKey(p.id, p.binStep) {
        HeldUnderOwnKey(p.id, p.binStep, s.heap[s.table[slot].address]);
      }
    case Store(c) =>
      var p := s.phases[c];
      OwnKeyHolds(p.id, p.binStep, s.heap[p.address]);
    case _ =>
  }

  lemma HeldUnderOwnKey(id: Id, binStep: BinStep, price: nat)
    requires Holds(PriceKey(id, binStep), price)
    ensures PriceFromID(id, binStep) == Ok(price)
  {
    hide PriceFromID, PriceKey;
  }

  /** A run of the system: states joined by steps. */
  ghost predicate Behaviour(states: seq<State>, actions: seq<Action>) {
    && |states| == |actions| + 1
    && Initial(states[0])
    && forall i :: 0 <= i < |actions| ==> Step(states[i], states[i + 1], actions[i])
  }

  lemma {:induction false} InvHolds(states: seq<State>, actions: seq<Action>, i: nat)
    requires Behaviour(states, actions) && i < |states|
    ensures Inv(states[i])
  {
    hide Step;
    if i > 0 {
      InvHolds(states, actions, i - 1);
      StepKeepsInv(states[i - 1], states[i], actions[i - 1]);
    }
  }

  /** What a returned call says at the moment it returns. */
  ghost predicate Answers(s: State, p: Phase)
    requires p.Returned?
  {
    match p.answer
    case Ok(at) => at in s.heap && PriceFromID(p.id, p.binStep) == Ok(s.heap[at])
    case Err(e) => PriceFromID(p.id, p.binStep) == Err(e)
  }

  /** The cache is transparent: in every interleaving, at every step at which a call returns, it returns
      exactly what the uncached computation of its own arguments gives, at an address no one else has,
      whatever collided in its slot and whatever other callers overwrote. */
  lemma Transparent(states: seq<State>, actions: seq<Action>, i: nat, c: nat)
    requires Behaviour(states, actions) && i < |actions|
    requires c in states[i + 1].phases && states[i + 1].phases[c].Returned?
    requires c !in states[i].phases || !states[i].phases[c].Returned?
    ensures Answers(states[i + 1], states[i + 1].phases[c])
    ensures states[i + 1].phases[c].answer.Ok? ==> states[i + 1].phases[c].answer.value !in states[i].heap
  {
    hide PriceFromID, PriceKey, PriceSlot, Holds;
    InvHolds(states, actions, i);
    assert Step(states[i], states[i + 1], actions[i]);
  }

  /** Overwriting what one was given never changes the answer of any later call: the table still answers
      every key it holds with that key's price. */
  lemma OverwritesAreHarmless(s: State, n: State, at: nat, value: nat, id: Id, binStep: BinStep)
    requires Inv(s) && Step(s, n, CallerOverwrites(at, value))
    requires PriceSlot(PriceKey(id, binStep)) in n.table
             && n.table[PriceSlot(PriceKey(id, binStep))].key == PriceKey(id, binStep)
    ensures n.table == s.table && n.phases == s.phases
    ensures var address := n.table[PriceSlot(PriceKey(id, binStep))].address;
            address in n.heap && PriceFromID(id, binStep) == Ok(n.heap[address])
  {
    hide PriceFromID, PriceKey, PriceSlot, Holds;
    StepKeepsInv(s, n, CallerOverwrites(at, value));
    HeldUnderOwnKey(id, binStep, n.heap[n.table[PriceSlot(PriceKey(id, binStep))].address]);
  }
}
