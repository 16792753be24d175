// One trimming kernel of c29.cpp as a state machine: every entry of the source buckets is
// an agent, each of its atomic operations is one step, and a run is any order of steps.
// The agents of one work group share its counters and meet at a barrier between the pass
// that counts and the pass that writes.

module TrimKernel {
  import opened Sequences
  import opened CycleGraph
  import opened TrimRounds
  import opened Words

  const EDGE_RANGE: nat := 0x2000_0000      // 2^EDGE_BITS
  const GROUPS: nat := 4096                 // work groups, and buckets

  // A source entry and the work group that reads it.
  datatype Slot = Slot(group: nat, edge: Edge)

  // Entries lie in the bucket of the low 12 bits of their x, and ids have EDGE_BITS bits.
  predicate Placed(s: Slot) {
    && s.group < GROUPS && s.edge.x < EDGE_RANGE && s.edge.y < EDGE_RANGE
    && (!Blank(s.edge) ==> s.edge.x % GROUPS == s.group)
  }

  predicate AllPlaced(slots: seq<Slot>) {
    forall i :: 0 <= i < |slots| ==> Placed(slots[i])
  }

  function Edges(slots: seq<Slot>): (es: seq<Edge>)
    ensures |es| == |slots| && forall i :: 0 <= i < |slots| ==> es[i] == slots[i].edge
  {
    seq(|slots|, i requires 0 <= i < |slots| => slots[i].edge)
  }

  // ---- the 2-bit counters ----

  // Per work group 8192 words; a word is the set of its one bits.
  type Counters = seq<seq<set<nat>>>

  predicate Sized(c: Counters) {
    |c| == GROUPS && forall g :: 0 <= g < GROUPS ==> |c[g]| == 8192
  }

  function CounterId(x: uint32): (id: nat)
    ensures id < 131072
  {
    (x % EDGE_RANGE) / 4096
  }

  predicate LowBit(c: Counters, g: nat, x: uint32)
    requires Sized(c) && g < GROUPS
  {
    CounterId(x) % 32 in c[g][CounterId(x) / 32]
  }

  predicate HighBit(c: Counters, g: nat, x: uint32)
    requires Sized(c) && g < GROUPS
  {
    CounterId(x) % 32 in c[g][CounterId(x) / 32 + 4096]
  }

  function FetchOr(c: Counters, g: nat, word: nat, bit: nat): (d: Counters)
    requires Sized(c) && g < GROUPS && word < 8192
    ensures Sized(d)
  {
    c[g := c[g][word := c[g][word] + {bit}]]
  }

  function OrLow(c: Counters, g: nat, x: uint32): Counters
    requires Sized(c) && g < GROUPS
  {
    FetchOr(c, g, CounterId(x) / 32, CounterId(x) % 32)
  }

  function OrHigh(c: Counters, g: nat, x: uint32): Counters
    requires Sized(c) && g < GROUPS
  {
    FetchOr(c, g, CounterId(x) / 32 + 4096, CounterId(x) % 32)
  }

  lemma SameCounter(x: uint32, z: uint32)
    requires x < EDGE_RANGE && z < EDGE_RANGE
    requires x % GROUPS == z % GROUPS
    requires CounterId(x) / 32 == CounterId(z) / 32 && CounterId(x) % 32 == CounterId(z) % 32
    ensures x == z
  {
  }

  // Within its group an id has a counter of its own.
  lemma OrSetsOneBit(c: Counters, x: uint32, z: uint32)
    requires Sized(c) && x < EDGE_RANGE && z < EDGE_RANGE
    ensures LowBit(OrLow(c, x % GROUPS, x), z % GROUPS, z) <==> LowBit(c, z % GROUPS, z) || z == x
    ensures HighBit(OrLow(c, x % GROUPS, x), z % GROUPS, z) <==> HighBit(c, z % GROUPS, z)
    ensures HighBit(OrHigh(c, x % GROUPS, x), z % GROUPS, z) <==> HighBit(c, z % GROUPS, z) || z == x
    ensures LowBit(OrHigh(c, x % GROUPS, x), z % GROUPS, z) <==> LowBit(c, z % GROUPS, z)
  {
    if x % GROUPS == z % GROUPS && CounterId(x) / 32 == CounterId(z) / 32 && CounterId(x) % 32 == CounterId(z) % 32 {
      SameCounter(x, z);
    }
  }

  // ---- buckets in memory ----

  // Bucket b has `stride` cells and is filled from (b & 255) * step on; step is 32 in the
  // rounds with memory offset and 0 in the others.
  datatype Layout = Layout(stride: nat, step: nat) {
    predicate Valid() { 255 * step < stride < TWO32 }

    function Offset(b: nat): (o: nat)
      requires Valid()
      ensures o < stride
    {
      Scaled(b % 256, step);
      (b % 256) * step
    }

    function Room(b: nat): (r: nat)
      requires Valid()
      ensures r > 0 && Offset(b) + r == stride
    {
      stride - Offset(b)
    }

    function Cell(b: nat, k: nat): (a: nat)
      requires Valid()
    {
      Offset(b) + b * stride + k
    }

    // Where the kernel writes for this ticket.
    function Target(b: nat, ticket: nat): (a: nat)
      requires Valid()
      ensures b * stride + Offset(b) <= a < (b + 1) * stride
    {
      Cell(b, if ticket < Room(b) - 1 then ticket else Room(b) - 1)
    }
  }

  lemma Scaled(n: nat, step: nat)
    requires n <= 255
    ensures 0 <= n * step <= 255 * step
  {
  }

  lemma SliceOrder(b: nat, b': nat, stride: nat)
    requires b < b'
    ensures (b + 1) * stride <= b' * stride
  {
  }

  lemma SlicesAreDisjoint(l: Layout, b: nat, t: nat, b': nat, t': nat)
    requires l.Valid() && (b != b' || (t != t' && t < l.Room(b) && t' < l.Room(b)))
    ensures l.Target(b, t) != l.Target(b', t')
  {
    if b < b' {
      SliceOrder(b, b', l.stride);
    } else if b' < b {
      SliceOrder(b', b, l.stride);
    }
  }

  // ---- the machine ----

  datatype Pc =
    | ToCount                    // first pass, before the fetch_or on the low word
    | ToMark                     // the low bit was set: before the fetch_or on the high word
    | Counted                    // waiting at, or just past, the barrier
    | Kept                       // the high bit was read set: before the fetch_add
    | ToWrite(ticket: uint32)    // before the store
    | Done(wrote: bool)

  datatype Machine = Machine(
    pcs: seq<Pc>,
    counters: Counters,
    next: seq<uint32>,           // dest_indexes
    dest: map<nat, Edge>,        // the cells written in this round
    log: seq<seq<nat>>)          // history: who drew tickets, per bucket in order

  ghost predicate Shape(slots: seq<Slot>, l: Layout, m: Machine) {
    && AllPlaced(slots) && l.Valid()
    && |m.pcs| == |slots| && Sized(m.counters) && |m.next| == GROUPS && |m.log| == GROUPS
  }

  function Start(slots: seq<Slot>): Machine {
    Machine(
      seq(|slots|, i => ToCount),
      seq(GROUPS, g => seq(8192, w => {})),
      seq(GROUPS, b => 0),
      map[],
      seq(GROUPS, b => []))
  }

  predicate Counting(pc: Pc) {
    pc.ToCount? || pc.ToMark?
  }

  // Every agent of the group has arrived at the barrier.
  predicate PastBarrier(slots: seq<Slot>, pcs: seq<Pc>, g: nat)
    requires |pcs| == |slots|
  {
    forall j :: 0 <= j < |slots| && slots[j].group == g ==> !Counting(pcs[j])
  }

  function Bucket(slots: seq<Slot>, i: nat): nat
    requires i < |slots|
  {
    slots[i].edge.y % GROUPS
  }

  // One atomic operation of agent i; nothing happens while it waits or when it is done.
  function Fire(slots: seq<Slot>, l: Layout, m: Machine, i: nat): Machine
    requires Shape(slots, l, m) && i < |slots|
  {
    var g, e := slots[i].group, slots[i].edge;
    match m.pcs[i]
    case ToCount =>
      if Blank(e) then m.(pcs := m.pcs[i := Counted])
      else m.(counters := OrLow(m.counters, g, e.x),
              pcs := m.pcs[i := if LowBit(m.counters, g, e.x) then ToMark else Counted])
    case ToMark =>
      m.(counters := OrHigh(m.counters, g, e.x), pcs := m.pcs[i := Counted])
    case Counted =>
      if !PastBarrier(slots, m.pcs, g) then m
      else if !Blank(e) && HighBit(m.counters, g, e.x) then m.(pcs := m.pcs[i := Kept])
      else m.(pcs := m.pcs[i := Done(false)])
    case Kept =>
      var b := Bucket(slots, i);
      m.(next := m.next[b := (m.next[b] + 1) % TWO32],
         log := m.log[b := m.log[b] + [i]],
         pcs := m.pcs[i := ToWrite(m.next[b])])
    case ToWrite(ticket) =>
      m.(dest := m.dest[l.Target(Bucket(slots, i), ticket) := Swap(e)],
         pcs := m.pcs[i := Done(true)])
    case Done(_) => m
  }

  function Run(slots: seq<Slot>, l: Layout, schedule: seq<nat>): (m: Machine)
    requires AllPlaced(slots) && l.Valid()
    ensures Shape(slots, l, m)
  {
    if |schedule| == 0 then Start(slots)
    else
      var m := Run(slots, l, schedule[..|schedule| - 1]);
      var i := schedule[|schedule| - 1];
      if i < |slots| then Fire(slots, l, m, i) else m
  }

  predicate AllDone(m: Machine) {
    forall i :: 0 <= i < |m.pcs| ==> m.pcs[i].Done?
  }

  // ---- what the counters mean ----

  // Agent j has x in its edge and has passed its first fetch_or.
  predicate Seen(slots: seq<Slot>, pcs: seq<Pc>, j: nat, x: uint32)
    requires |pcs| == |slots|
  {
    j < |slots| && !Blank(slots[j].edge) && slots[j].edge.x == x && !pcs[j].ToCount?
  }

  predicate Marking(slots: seq<Slot>, pcs: seq<Pc>, j: nat, x: uint32)
    requires |pcs| == |slots|
  {
    j < |slots| && slots[j].edge.x == x && pcs[j].ToMark?
  }

  ghost predicate SeenTwice(slots: seq<Slot>, pcs: seq<Pc>, x: uint32)
    requires |pcs| == |slots|
  {
    exists j, k :: j != k && Seen(slots, pcs, j, x) && Seen(slots, pcs, k, x)
  }

  ghost predicate CountersRight(slots: seq<Slot>, pcs: seq<Pc>, c: Counters)
    requires |pcs| == |slots| && Sized(c)
  {
    && (forall x: uint32, j :: x < EDGE_RANGE && Seen(slots, pcs, j, x) ==> LowBit(c, x % GROUPS, x))
    && (forall x: uint32 :: x < EDGE_RANGE && LowBit(c, x % GROUPS, x) ==> exists j :: Seen(slots, pcs, j, x))
    && (forall x: uint32 :: x < EDGE_RANGE && SeenTwice(slots, pcs, x) ==>
        HighBit(c, x % GROUPS, x) || exists k :: Marking(slots, pcs, k, x))
    && (forall x: uint32 :: x < EDGE_RANGE && HighBit(c, x % GROUPS, x) ==> SeenTwice(slots, pcs, x))
    && (forall x: uint32, k :: Marking(slots, pcs, k, x) ==> Seen(slots, pcs, k, x) && SeenTwice(slots, pcs, x))
  }

  // ---- the whole invariant ----

  predicate HoldsTicket(slots: seq<Slot>, pcs: seq<Pc>, b: nat, t: nat, i: nat)
    requires |pcs| == |slots|
  {
    i < |slots| && Bucket(slots, i) == b && (pcs[i] == ToWrite(t % TWO32) || pcs[i] == Done(true))
  }

  predicate Stored(slots: seq<Slot>, l: Layout, dest: map<nat, Edge>, b: nat, t: nat, i: nat)
    requires l.Valid()
  {
    i < |slots| && l.Target(b, t) in dest && dest[l.Target(b, t)] == Swap(slots[i].edge)
  }

  ghost predicate TicketsRight(slots: seq<Slot>, m: Machine)
    requires |m.pcs| == |slots| && |m.next| == GROUPS && |m.log| == GROUPS
  {
    && (forall b :: 0 <= b < GROUPS ==> m.next[b] == |m.log[b]| % TWO32 && Distinct(m.log[b]))
    && (forall b, t :: 0 <= b < GROUPS && 0 <= t < |m.log[b]| ==> HoldsTicket(slots, m.pcs, b, t, m.log[b][t]))
    && (forall i :: 0 <= i < |slots| && (m.pcs[i].ToWrite? || m.pcs[i] == Done(true)) ==>
        i in m.log[Bucket(slots, i)])
  }

  // Past the barrier an agent goes on exactly if its x was counted twice.
  ghost predicate DecisionsRight(slots: seq<Slot>, pcs: seq<Pc>, c: Counters)
    requires |pcs| == |slots| && AllPlaced(slots) && Sized(c)
  {
    forall i :: 0 <= i < |slots| && !Counting(pcs[i]) && !pcs[i].Counted? ==>
      && PastBarrier(slots, pcs, slots[i].group)
      && ((!Blank(slots[i].edge) && HighBit(c, slots[i].group, slots[i].edge.x)) <==> pcs[i] != Done(false))
  }

  // a is a cell of the bucket e belongs in.
  ghost predicate InSlice(l: Layout, a: nat, e: Edge)
    requires l.Valid()
  {
    exists b :: 0 <= b < GROUPS && b * l.stride + l.Offset(b) <= a < (b + 1) * l.stride && e.x % GROUPS == b
  }

  ghost predicate StoresRight(slots: seq<Slot>, l: Layout, m: Machine)
    requires Shape(slots, l, m)
  {
    && (forall a :: a in m.dest ==> InSlice(l, a, m.dest[a]))
    && (forall b, t :: 0 <= b < GROUPS && 0 <= t < |m.log[b]| <= l.Room(b) ==>
        var i := m.log[b][t];
        i < |slots| && m.pcs[i].Done? ==> Stored(slots, l, m.dest, b, t, i))
  }

  ghost predicate Inv(slots: seq<Slot>, l: Layout, m: Machine) {
    && Shape(slots, l, m)
    && CountersRight(slots, m.pcs, m.counters)
    && DecisionsRight(slots, m.pcs, m.counters)
    && TicketsRight(slots, m)
    && StoresRight(slots, l, m)
  }
}
