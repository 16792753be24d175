// Every interleaving of a trimming kernel does one round: the invariant of the machine,
// and what is in the destination buckets when all agents are done.

module TrimProof {
  import opened Sequences
  import opened CycleGraph
  import opened TrimRounds
  import opened TrimKernel
  import opened Words

  // ---- counters ----

  // An agent that passes its first fetch_or.
  lemma CountKeepsCounters(slots: seq<Slot>, l: Layout, m: Machine, i: nat)
    requires Shape(slots, l, m) && i < |slots| && m.pcs[i].ToCount?
    requires CountersRight(slots, m.pcs, m.counters)
    ensures var n := Fire(slots, l, m, i); CountersRight(slots, n.pcs, n.counters)
  {
    var n := Fire(slots, l, m, i);
    var z := slots[i].edge.x;
    forall x: uint32, j | j != i
      ensures Seen(slots, n.pcs, j, x) <==> Seen(slots, m.pcs, j, x)
      ensures Marking(slots, n.pcs, j, x) <==> Marking(slots, m.pcs, j, x)
    {
    }
    assert !Seen(slots, m.pcs, i, z) && !Marking(slots, m.pcs, i, z);
    forall x: uint32 | x < EDGE_RANGE && SeenTwice(slots, m.pcs, x)
      ensures SeenTwice(slots, n.pcs, x)
    {
      SeenTwiceStays(slots, m.pcs, n.pcs, x);
    }
    if Blank(slots[i].edge) {
      assert !Seen(slots, n.pcs, i, z);
      forall x: uint32 | SeenTwice(slots, n.pcs, x)
        ensures SeenTwice(slots, m.pcs, x)
      {
        SeenTwiceStays(slots, n.pcs, m.pcs, x);
      }
    } else {
      CountNonBlank(slots, l, m, i);
    }
  }

  lemma SeenTwiceStays(slots: seq<Slot>, pcs: seq<Pc>, pcs': seq<Pc>, x: uint32)
    requires |pcs| == |pcs'| == |slots| && SeenTwice(slots, pcs, x)
    requires forall j :: Seen(slots, pcs, j, x) ==> Seen(slots, pcs', j, x)
    ensures SeenTwice(slots, pcs', x)
  {
    var j, k :| j != k && Seen(slots, pcs, j, x) && Seen(slots, pcs, k, x);
    assert Seen(slots, pcs', j, x) && Seen(slots, pcs', k, x);
  }

  lemma CountNonBlank(slots: seq<Slot>, l: Layout, m: Machine, i: nat)
    requires Shape(slots, l, m) && i < |slots| && m.pcs[i].ToCount? && !Blank(slots[i].edge)
    requires CountersRight(slots, m.pcs, m.counters)
    ensures var n := Fire(slots, l, m, i); CountersRight(slots, n.pcs, n.counters)
  {
    var n := Fire(slots, l, m, i);
    var z := slots[i].edge.x;
    assert Placed(slots[i]);
    assert Seen(slots, n.pcs, i, z);
    var was := LowBit(m.counters, z % GROUPS, z);
    assert Marking(slots, n.pcs, i, z) <==> was;
    forall x: uint32, j
      ensures Seen(slots, n.pcs, j, x) <==> Seen(slots, m.pcs, j, x) || (j == i && x == z)
      ensures Marking(slots, n.pcs, j, x) <==> Marking(slots, m.pcs, j, x) || (j == i && x == z && was)
    {
    }
    if was {
      var j :| Seen(slots, m.pcs, j, z);
      assert Seen(slots, n.pcs, j, z) && j != i;
      assert SeenTwice(slots, n.pcs, z);
    }
    forall x: uint32 | x < EDGE_RANGE
      ensures LowBit(n.counters, x % GROUPS, x) <==> LowBit(m.counters, x % GROUPS, x) || x == z
      ensures HighBit(n.counters, x % GROUPS, x) <==> HighBit(m.counters, x % GROUPS, x)
    {
      OrSetsOneBit(m.counters, z, x);
    }
    forall x: uint32 | x < EDGE_RANGE && SeenTwice(slots, n.pcs, x)
      ensures HighBit(n.counters, x % GROUPS, x) || exists k :: Marking(slots, n.pcs, k, x)
    {
      if x == z && was {
        assert Marking(slots, n.pcs, i, x);
      } else {
        var j, k :| j != k && Seen(slots, n.pcs, j, x) && Seen(slots, n.pcs, k, x);
        assert Seen(slots, m.pcs, j, x) && Seen(slots, m.pcs, k, x);
        assert SeenTwice(slots, m.pcs, x);
      }
    }
    forall x: uint32 | x < EDGE_RANGE && SeenTwice(slots, m.pcs, x)
      ensures SeenTwice(slots, n.pcs, x)
    {
      SeenTwiceStays(slots, m.pcs, n.pcs, x);
    }
  }

  // An agent that marks the high word.
  lemma MarkKeepsCounters(slots: seq<Slot>, l: Layout, m: Machine, i: nat)
    requires Shape(slots, l, m) && i < |slots| && m.pcs[i].ToMark?
    requires CountersRight(slots, m.pcs, m.counters)
    ensures var n := Fire(slots, l, m, i); CountersRight(slots, n.pcs, n.counters)
  {
    var n := Fire(slots, l, m, i);
    var z := slots[i].edge.x;
    assert Placed(slots[i]);
    assert Marking(slots, m.pcs, i, z);
    SameSeen(slots, m.pcs, n.pcs, i);
    forall x: uint32, j
      ensures Marking(slots, n.pcs, j, x) <==> Marking(slots, m.pcs, j, x) && j != i
    {
    }
    forall x: uint32 | x < EDGE_RANGE
      ensures LowBit(n.counters, x % GROUPS, x) <==> LowBit(m.counters, x % GROUPS, x)
      ensures HighBit(n.counters, x % GROUPS, x) <==> HighBit(m.counters, x % GROUPS, x) || x == z
    {
      OrSetsOneBit(m.counters, z, x);
    }
    forall x: uint32 | x < EDGE_RANGE && SeenTwice(slots, n.pcs, x)
      ensures HighBit(n.counters, x % GROUPS, x) || exists k :: Marking(slots, n.pcs, k, x)
    {
      if x != z && !HighBit(m.counters, x % GROUPS, x) {
        var k :| Marking(slots, m.pcs, k, x);
        assert Marking(slots, n.pcs, k, x);
      }
    }
  }

  lemma SameSeen(slots: seq<Slot>, pcs: seq<Pc>, pcs': seq<Pc>, i: nat)
    requires |pcs| == |pcs'| == |slots| && i < |slots|
    requires pcs' == pcs[i := pcs'[i]] && !pcs[i].ToCount? && !pcs'[i].ToCount?
    ensures forall x: uint32, j :: Seen(slots, pcs', j, x) <==> Seen(slots, pcs, j, x)
    ensures forall x: uint32 :: SeenTwice(slots, pcs', x) <==> SeenTwice(slots, pcs, x)
  {
    forall x: uint32, j
      ensures Seen(slots, pcs', j, x) <==> Seen(slots, pcs, j, x)
    {
    }
    forall x: uint32
      ensures SeenTwice(slots, pcs', x) <==> SeenTwice(slots, pcs, x)
    {
      if SeenTwice(slots, pcs', x) { SeenTwiceStays(slots, pcs', pcs, x); }
      if SeenTwice(slots, pcs, x) { SeenTwiceStays(slots, pcs, pcs', x); }
    }
  }

  lemma LaterKeepsCounters(slots: seq<Slot>, l: Layout, m: Machine, i: nat)
    requires Shape(slots, l, m) && i < |slots| && !Counting(m.pcs[i])
    requires CountersRight(slots, m.pcs, m.counters)
    ensures var n := Fire(slots, l, m, i); CountersRight(slots, n.pcs, n.counters)
  {
    var n := Fire(slots, l, m, i);
    if n != m {
      SameSeen(slots, m.pcs, n.pcs, i);
      forall x: uint32, j
        ensures Marking(slots, n.pcs, j, x) <==> Marking(slots, m.pcs, j, x)
      {
      }
    }
  }

  // ---- decisions ----

  lemma StepKeepsDecisions(slots: seq<Slot>, l: Layout, m: Machine, i: nat)
    requires Inv(slots, l, m) && i < |slots|
    ensures var n := Fire(slots, l, m, i); DecisionsRight(slots, n.pcs, n.counters)
  {
    var n := Fire(slots, l, m, i);
    forall k | 0 <= k < |slots| && !Counting(n.pcs[k]) && !n.pcs[k].Counted?
      ensures PastBarrier(slots, n.pcs, slots[k].group)
      ensures (!Blank(slots[k].edge) && HighBit(n.counters, slots[k].group, slots[k].edge.x))
        <==> n.pcs[k] != Done(false)
    {
      assert Placed(slots[k]) && Placed(slots[i]);
      if Counting(m.pcs[i]) {
        assert k != i;
        assert slots[i].group != slots[k].group;
        if !Blank(slots[k].edge) && !Blank(slots[i].edge) {
          OrSetsOneBit(m.counters, slots[i].edge.x, slots[k].edge.x);
        }
        MarkingIsNotBlank(slots, m, i);
      }
    }
  }

  lemma MarkingIsNotBlank(slots: seq<Slot>, m: Machine, i: nat)
    requires |m.pcs| == |slots| && Sized(m.counters) && i < |slots|
    requires CountersRight(slots, m.pcs, m.counters)
    ensures m.pcs[i].ToMark? ==> !Blank(slots[i].edge)
  {
    assert m.pcs[i].ToMark? ==> Marking(slots, m.pcs, i, slots[i].edge.x);
  }

  // ---- tickets ----

  lemma StepKeepsTickets(slots: seq<Slot>, l: Layout, m: Machine, i: nat)
    requires Shape(slots, l, m) && i < |slots| && TicketsRight(slots, m)
    ensures TicketsRight(slots, Fire(slots, l, m, i))
  {
    var n := Fire(slots, l, m, i);
    var c := Bucket(slots, i);
    if m.pcs[i].Kept? {
      assert forall t :: 0 <= t < |m.log[c]| ==> HoldsTicket(slots, m.pcs, c, t, m.log[c][t]);
      assert i !in m.log[c];
      DrawKeepsTickets(slots, l, m, i);
    } else {
      forall b, t | 0 <= b < GROUPS && 0 <= t < |n.log[b]|
        ensures HoldsTicket(slots, n.pcs, b, t, n.log[b][t])
      {
        assert HoldsTicket(slots, m.pcs, b, t, m.log[b][t]);
      }
    }
  }

  lemma DrawKeepsTickets(slots: seq<Slot>, l: Layout, m: Machine, i: nat)
    requires Shape(slots, l, m) && i < |slots| && TicketsRight(slots, m)
    requires m.pcs[i].Kept? && i !in m.log[Bucket(slots, i)]
    ensures TicketsRight(slots, Fire(slots, l, m, i))
  {
    var n := Fire(slots, l, m, i);
    var c := Bucket(slots, i);
    assert n.log[c] == m.log[c] + [i];
    forall b | 0 <= b < GROUPS
      ensures n.next[b] == |n.log[b]| % TWO32 && Distinct(n.log[b])
    {
      assert m.next[b] == |m.log[b]| % TWO32;
    }
    forall b, t | 0 <= b < GROUPS && 0 <= t < |n.log[b]|
      ensures HoldsTicket(slots, n.pcs, b, t, n.log[b][t])
    {
      if b != c || t < |m.log[c]| {
        assert HoldsTicket(slots, m.pcs, b, t, m.log[b][t]);
      }
    }
    forall k | 0 <= k < |slots| && (n.pcs[k].ToWrite? || n.pcs[k] == Done(true))
      ensures k in n.log[Bucket(slots, k)]
    {
      if k == i {
        assert n.log[c][|m.log[c]|] == i;
      } else {
        assert k in m.log[Bucket(slots, k)];
      }
    }
  }

  // ---- stores ----

  // Whatever the ticket, the store stays in the slice of its bucket.
  lemma StoreStaysInSlice(slots: seq<Slot>, l: Layout, i: nat, ticket: nat)
    requires AllPlaced(slots) && l.Valid() && i < |slots|
    ensures InSlice(l, l.Target(Bucket(slots, i), ticket), Swap(slots[i].edge))
  {
    var b := Bucket(slots, i);
    var a := l.Target(b, ticket);
    assert b * l.stride + l.Offset(b) <= a < (b + 1) * l.stride;
  }

  lemma StoreKeepsOthers(slots: seq<Slot>, l: Layout, m: Machine, i: nat, b: nat, t: nat)
    requires Shape(slots, l, m) && i < |slots| && m.pcs[i].ToWrite?
    requires TicketsRight(slots, m) && StoresRight(slots, l, m)
    requires b < GROUPS && t < |m.log[b]| <= l.Room(b) && m.log[b][t] < |slots|
    requires Fire(slots, l, m, i).pcs[m.log[b][t]].Done?
    ensures Stored(slots, l, Fire(slots, l, m, i).dest, b, t, m.log[b][t])
  {
    var k := m.log[b][t];
    assert HoldsTicket(slots, m.pcs, b, t, k);
    if k != i {
      TicketOfOther(slots, l, m, i, b, t);
      SlicesAreDisjoint(l, b, t, Bucket(slots, i), m.pcs[i].ticket);
      StoreElsewhere(slots, l, m.dest, l.Target(Bucket(slots, i), m.pcs[i].ticket), Swap(slots[i].edge), b, t, k);
    } else {
      TicketIsSmall(l, b, t);
    }
  }

  lemma StoreElsewhere(slots: seq<Slot>, l: Layout, dest: map<nat, Edge>, a: nat, e: Edge, b: nat, t: nat, k: nat)
    requires l.Valid() && Stored(slots, l, dest, b, t, k) && l.Target(b, t) != a
    ensures Stored(slots, l, dest[a := e], b, t, k)
  {
  }

  lemma TicketIsSmall(l: Layout, b: nat, t: nat)
    requires l.Valid() && t < l.Room(b)
    ensures t % TWO32 == t
  {
  }

  // A step that does not write: the cells stay, and no ticket holder is newly done.
  lemma StepLeavesCells(slots: seq<Slot>, l: Layout, m: Machine, i: nat, b: nat, t: nat)
    requires Shape(slots, l, m) && i < |slots| && !m.pcs[i].ToWrite?
    requires var n := Fire(slots, l, m, i);
      b < GROUPS && t < |n.log[b]| && n.log[b][t] < |slots| && n.pcs[n.log[b][t]].Done?
    ensures var n := Fire(slots, l, m, i);
      && n.dest == m.dest && t < |m.log[b]| && n.log[b][t] == m.log[b][t]
      && (m.pcs[m.log[b][t]].Done? || m.pcs[m.log[b][t]].Counted?)
  {
  }

  lemma StepKeepsSlices(slots: seq<Slot>, l: Layout, m: Machine, i: nat)
    requires Shape(slots, l, m) && i < |slots| && forall a :: a in m.dest ==> InSlice(l, a, m.dest[a])
    ensures var n := Fire(slots, l, m, i);
      forall a :: a in n.dest ==> InSlice(l, a, n.dest[a])
  {
    var n := Fire(slots, l, m, i);
    forall a | a in n.dest
      ensures InSlice(l, a, n.dest[a])
    {
      if m.pcs[i].ToWrite? && a == l.Target(Bucket(slots, i), m.pcs[i].ticket) {
        StoreStaysInSlice(slots, l, i, m.pcs[i].ticket);
      }
    }
  }

  lemma StepKeepsStored(slots: seq<Slot>, l: Layout, m: Machine, i: nat, b: nat, t: nat)
    requires Shape(slots, l, m) && i < |slots|
    requires TicketsRight(slots, m) && StoresRight(slots, l, m)
    requires var n := Fire(slots, l, m, i);
      b < GROUPS && t < |n.log[b]| <= l.Room(b) && n.log[b][t] < |slots| && n.pcs[n.log[b][t]].Done?
    ensures var n := Fire(slots, l, m, i);
      Stored(slots, l, n.dest, b, t, n.log[b][t])
  {
    if m.pcs[i].ToWrite? {
      StoreKeepsOthers(slots, l, m, i, b, t);
    } else {
      StepLeavesCells(slots, l, m, i, b, t);
      assert HoldsTicket(slots, m.pcs, b, t, m.log[b][t]);
      assert Stored(slots, l, m.dest, b, t, m.log[b][t]);
    }
  }

  lemma StepKeepsStores(slots: seq<Slot>, l: Layout, m: Machine, i: nat)
    requires Shape(slots, l, m) && i < |slots|
    requires TicketsRight(slots, m) && StoresRight(slots, l, m)
    ensures StoresRight(slots, l, Fire(slots, l, m, i))
  {
    var n := Fire(slots, l, m, i);
    StepKeepsSlices(slots, l, m, i);
    forall b, t | 0 <= b < GROUPS && 0 <= t < |n.log[b]| <= l.Room(b) && n.log[b][t] < |slots|
        && n.pcs[n.log[b][t]].Done?
      ensures Stored(slots, l, n.dest, b, t, n.log[b][t])
    {
      StepKeepsStored(slots, l, m, i, b, t);
    }
  }

  lemma TicketOfOther(slots: seq<Slot>, l: Layout, m: Machine, i: nat, b: nat, t: nat)
    requires Shape(slots, l, m) && i < |slots| && m.pcs[i].ToWrite? && TicketsRight(slots, m)
    requires b < GROUPS && t < |m.log[b]| <= l.Room(b) && m.log[b][t] != i
    ensures Bucket(slots, i) == b ==> m.pcs[i].ticket != t && m.pcs[i].ticket < l.Room(b)
  {
    if Bucket(slots, i) == b {
      var u := PositionIn(m.log[b], i);
      assert HoldsTicket(slots, m.pcs, b, u, m.log[b][u]);
      assert u % TWO32 == u;
    }
  }

  // ---- every run ----

  lemma StartIsRight(slots: seq<Slot>, l: Layout)
    requires AllPlaced(slots) && l.Valid()
    ensures Inv(slots, l, Start(slots))
  {
    var m := Start(slots);
    forall x: uint32 | x < EDGE_RANGE
      ensures !LowBit(m.counters, x % GROUPS, x) && !HighBit(m.counters, x % GROUPS, x)
    {
      assert m.counters[x % GROUPS] == seq(8192, w => {});
    }
  }

  lemma StepKeepsInv(slots: seq<Slot>, l: Layout, m: Machine, i: nat)
    requires Inv(slots, l, m) && i < |slots|
    ensures Inv(slots, l, Fire(slots, l, m, i))
  {
    if m.pcs[i].ToCount? {
      CountKeepsCounters(slots, l, m, i);
    } else if m.pcs[i].ToMark? {
      MarkKeepsCounters(slots, l, m, i);
    } else {
      LaterKeepsCounters(slots, l, m, i);
    }
    StepKeepsDecisions(slots, l, m, i);
    StepKeepsTickets(slots, l, m, i);
    StepKeepsStores(slots, l, m, i);
  }

  // For every interleaving, and whether or not a bucket overflows: the invariant holds. In
  // particular every store stays inside the slice of the bucket of its new x.
  lemma {:induction false} RunKeepsInv(slots: seq<Slot>, l: Layout, schedule: seq<nat>)
    requires AllPlaced(slots) && l.Valid()
    ensures Inv(slots, l, Run(slots, l, schedule))
    ensures forall a :: a in Run(slots, l, schedule).dest ==> InSlice(l, a, Run(slots, l, schedule).dest[a])
  {
    if |schedule| == 0 {
      StartIsRight(slots, l);
    } else {
      RunKeepsInv(slots, l, schedule[..|schedule| - 1]);
      var i := schedule[|schedule| - 1];
      if i < |slots| {
        StepKeepsInv(slots, l, Run(slots, l, schedule[..|schedule| - 1]), i);
      }
    }
  }

  // ---- the machine does not get stuck ----

  function StepsLeft(pc: Pc): nat {
    match pc
    case ToCount => 5
    case ToMark => 4
    case Counted => 3
    case Kept => 2
    case ToWrite(_) => 1
    case Done(_) => 0
  }

  function WorkLeft(pcs: seq<Pc>): nat {
    if |pcs| == 0 then 0 else StepsLeft(pcs[0]) + WorkLeft(pcs[1..])
  }

  lemma {:induction false} UpdateWork(pcs: seq<Pc>, i: nat, pc: Pc)
    requires i < |pcs|
    ensures WorkLeft(pcs[i := pc]) == WorkLeft(pcs) - StepsLeft(pcs[i]) + StepsLeft(pc)
  {
    if i > 0 {
      assert pcs[i := pc][1..] == pcs[1..][i - 1 := pc];
      UpdateWork(pcs[1..], i - 1, pc);
    } else {
      assert pcs[i := pc][1..] == pcs[1..];
    }
  }

  // Until all agents are done some agent can move, and each move leaves less to do.
  lemma SomeAgentCanMove(slots: seq<Slot>, l: Layout, m: Machine)
    requires Shape(slots, l, m) && !AllDone(m)
    ensures exists i :: 0 <= i < |slots| && WorkLeft(Fire(slots, l, m, i).pcs) < WorkLeft(m.pcs)
    ensures forall i :: 0 <= i < |slots| && Fire(slots, l, m, i) != m ==>
      WorkLeft(Fire(slots, l, m, i).pcs) < WorkLeft(m.pcs)
  {
    forall i: nat | i < |slots| && Fire(slots, l, m, i) != m
      ensures WorkLeft(Fire(slots, l, m, i).pcs) < WorkLeft(m.pcs)
    {
      UpdateWork(m.pcs, i, Fire(slots, l, m, i).pcs[i]);
    }
    var i :| 0 <= i < |slots| && !m.pcs[i].Done?;
    if k :| 0 <= k < |slots| && Counting(m.pcs[k]) {
      CountingMoves(slots, l, m, k);
    } else {
      BarrierIsOpen(slots, l, m, i);
    }
  }

  lemma CountingMoves(slots: seq<Slot>, l: Layout, m: Machine, k: nat)
    requires Shape(slots, l, m) && k < |slots| && Counting(m.pcs[k])
    ensures WorkLeft(Fire(slots, l, m, k).pcs) < WorkLeft(m.pcs)
  {
    UpdateWork(m.pcs, k, Fire(slots, l, m, k).pcs[k]);
  }

  lemma BarrierIsOpen(slots: seq<Slot>, l: Layout, m: Machine, i: nat)
    requires Shape(slots, l, m) && i < |slots| && !m.pcs[i].Done?
    requires forall k :: 0 <= k < |slots| ==> !Counting(m.pcs[k])
    ensures WorkLeft(Fire(slots, l, m, i).pcs) < WorkLeft(m.pcs)
  {
    assert PastBarrier(slots, m.pcs, slots[i].group);
    UpdateWork(m.pcs, i, Fire(slots, l, m, i).pcs[i]);
  }

  // ---- the end of a run ----

  // Past the barrier the high bit says that another entry has the same x.
  lemma HighBitMeansShared(slots: seq<Slot>, l: Layout, m: Machine, i: nat)
    requires Inv(slots, l, m) && i < |slots| && PastBarrier(slots, m.pcs, slots[i].group)
    requires !Blank(slots[i].edge)
    ensures HighBit(m.counters, slots[i].group, slots[i].edge.x) <==> Survives(Edges(slots), i)
  {
    var x := slots[i].edge.x;
    assert Placed(slots[i]);
    if HighBit(m.counters, slots[i].group, x) {
      var j, k :| j != k && Seen(slots, m.pcs, j, x) && Seen(slots, m.pcs, k, x);
      var other := if j == i then k else j;
      assert Edges(slots)[other].x == x;
    }
    if Survives(Edges(slots), i) {
      var j :| 0 <= j < |slots| && j != i && !Blank(Edges(slots)[j]) && Edges(slots)[j].x == x;
      assert Placed(slots[j]) && slots[j].group == slots[i].group;
      assert Seen(slots, m.pcs, i, x) && Seen(slots, m.pcs, j, x);
      assert SeenTwice(slots, m.pcs, x);
      forall k: nat
        ensures !Marking(slots, m.pcs, k, x)
      {
        assert k < |slots| ==> Placed(slots[k]);
      }
    }
  }

  lemma DoneMeansSurvives(slots: seq<Slot>, l: Layout, m: Machine, i: nat)
    requires Inv(slots, l, m) && AllDone(m) && i < |slots|
    ensures m.pcs[i] == Done(true) <==> Survives(Edges(slots), i)
  {
    if !Blank(slots[i].edge) {
      HighBitMeansShared(slots, l, m, i);
    }
  }

  // ---- reading the buckets back ----

  ghost function AllTickets(log: seq<seq<nat>>, n: nat): seq<nat>
    requires n <= |log|
  {
    if n == 0 then [] else AllTickets(log, n - 1) + log[n - 1]
  }

  lemma {:induction false} TicketsUpTo(slots: seq<Slot>, m: Machine, n: nat)
    requires |m.pcs| == |slots| && |m.next| == |m.log| == GROUPS && TicketsRight(slots, m) && n <= GROUPS
    ensures Distinct(AllTickets(m.log, n))
    ensures forall i: nat :: i in AllTickets(m.log, n) <==>
      i < |slots| && Bucket(slots, i) < n && i in m.log[Bucket(slots, i)]
  {
    if n > 0 {
      TicketsUpTo(slots, m, n - 1);
      forall i | i in m.log[n - 1]
        ensures i < |slots| && Bucket(slots, i) == n - 1
      {
        var t := PositionIn(m.log[n - 1], i);
        assert HoldsTicket(slots, m.pcs, n - 1, t, m.log[n - 1][t]);
      }
    }
  }

  ghost function SurvivorsIn(slots: seq<Slot>, b: nat): set<nat> {
    set i: nat | i < |slots| && Survives(Edges(slots), i) && Bucket(slots, i) == b
  }

  // No destination bucket overflows.
  ghost predicate Fits(slots: seq<Slot>, l: Layout)
    requires l.Valid()
  {
    forall b :: 0 <= b < GROUPS ==> |SurvivorsIn(slots, b)| <= l.Room(b)
  }

  // What the next kernel reads in bucket b, and in the first n buckets. A cell that was not
  // written would hold stale data.
  function ReadCell(m: Machine, a: nat): Edge {
    if a in m.dest then m.dest[a] else Edge(0, 0)
  }

  function ReadBucket(l: Layout, m: Machine, b: nat): (r: seq<Slot>)
    requires l.Valid() && b < |m.next|
  {
    seq(if m.next[b] < l.stride then m.next[b] else l.stride, k requires 0 <= k => Slot(b, ReadCell(m, l.Cell(b, k))))
  }

  function ReadBuckets(l: Layout, m: Machine, n: nat): seq<Slot>
    requires l.Valid() && n <= |m.next|
  {
    if n == 0 then [] else ReadBuckets(l, m, n - 1) + ReadBucket(l, m, n - 1)
  }

  lemma TicketsRead(slots: seq<Slot>, l: Layout, m: Machine, b: nat)
    requires Shape(slots, l, m) && TicketsRight(slots, m) && b < GROUPS && |m.log[b]| <= l.Room(b)
    ensures |ReadBucket(l, m, b)| == |m.log[b]|
  {
    assert m.next[b] == |m.log[b]| % TWO32;
  }

  lemma TicketsFit(slots: seq<Slot>, l: Layout, m: Machine, b: nat)
    requires Inv(slots, l, m) && AllDone(m) && Fits(slots, l) && b < GROUPS
    ensures |m.log[b]| <= l.Room(b)
    ensures |ReadBucket(l, m, b)| == |m.log[b]|
  {
    forall i | i in m.log[b]
      ensures i in SurvivorsIn(slots, b)
    {
      TicketsSurvive(slots, l, m, b, i);
    }
    DistinctFits(m.log[b], SurvivorsIn(slots, b));
    TicketsRead(slots, l, m, b);
  }

  lemma TicketsSurvive(slots: seq<Slot>, l: Layout, m: Machine, b: nat, i: nat)
    requires Inv(slots, l, m) && AllDone(m) && b < GROUPS && i in m.log[b]
    ensures i in SurvivorsIn(slots, b)
  {
    var t := PositionIn(m.log[b], i);
    assert HoldsTicket(slots, m.pcs, b, t, m.log[b][t]);
    DoneMeansSurvives(slots, l, m, i);
  }

  // The bucket read back holds the swapped entries in the order their tickets were drawn.
  lemma TicketIsInItsCell(slots: seq<Slot>, l: Layout, m: Machine, b: nat, t: nat)
    requires Inv(slots, l, m) && AllDone(m) && Fits(slots, l) && b < GROUPS && t < |m.log[b]|
    ensures t < |ReadBucket(l, m, b)| && m.log[b][t] < |slots| && l.Cell(b, t) in m.dest
    ensures ReadBucket(l, m, b)[t] == Slot(b, Swap(slots[m.log[b][t]].edge))
  {
    TicketsFit(slots, l, m, b);
    TicketIsStored(slots, l, m, b, t);
  }

  lemma TicketIsStored(slots: seq<Slot>, l: Layout, m: Machine, b: nat, t: nat)
    requires Inv(slots, l, m) && AllDone(m) && b < GROUPS && t < |m.log[b]| <= l.Room(b)
    ensures m.log[b][t] < |slots| && l.Cell(b, t) in m.dest
    ensures m.dest[l.Cell(b, t)] == Swap(slots[m.log[b][t]].edge)
  {
    assert HoldsTicket(slots, m.pcs, b, t, m.log[b][t]);
    assert Stored(slots, l, m.dest, b, t, m.log[b][t]);
  }

  lemma TicketIsPlaced(slots: seq<Slot>, l: Layout, m: Machine, b: nat, t: nat)
    requires Inv(slots, l, m) && AllDone(m) && Fits(slots, l) && b < GROUPS && t < |m.log[b]|
    ensures t < |ReadBucket(l, m, b)| && Placed(ReadBucket(l, m, b)[t])
  {
    TicketIsInItsCell(slots, l, m, b, t);
    assert HoldsTicket(slots, m.pcs, b, t, m.log[b][t]);
    assert Placed(slots[m.log[b][t]]);
  }

  lemma BucketHoldsItsTickets(slots: seq<Slot>, l: Layout, m: Machine, b: nat)
    requires Inv(slots, l, m) && AllDone(m) && Fits(slots, l) && b < GROUPS
    ensures Edges(ReadBucket(l, m, b)) == SwapAll(Edges(slots), m.log[b])
    ensures AllPlaced(ReadBucket(l, m, b))
  {
    TicketsFit(slots, l, m, b);
    forall t | 0 <= t < |m.log[b]|
      ensures Placed(ReadBucket(l, m, b)[t])
      ensures ReadBucket(l, m, b)[t].edge == SwapAll(Edges(slots), m.log[b])[t]
    {
      TicketIsInItsCell(slots, l, m, b, t);
      TicketIsPlaced(slots, l, m, b, t);
    }
  }

  lemma {:induction false} BucketsHoldTickets(slots: seq<Slot>, l: Layout, m: Machine, n: nat)
    requires Inv(slots, l, m) && AllDone(m) && Fits(slots, l) && n <= GROUPS
    ensures Edges(ReadBuckets(l, m, n)) == SwapAll(Edges(slots), AllTickets(m.log, n))
    ensures AllPlaced(ReadBuckets(l, m, n))
  {
    if n > 0 {
      BucketsHoldTickets(slots, l, m, n - 1);
      BucketHoldsItsTickets(slots, l, m, n - 1);
      EdgesConcat(ReadBuckets(l, m, n - 1), ReadBucket(l, m, n - 1));
      MappedConcat<nat, Edge>(SwappedAt(Edges(slots)), AllTickets(m.log, n - 1), m.log[n - 1]);
    }
  }

  lemma EdgesConcat(s: seq<Slot>, t: seq<Slot>)
    ensures Edges(s + t) == Edges(s) + Edges(t)
  {
  }

  // Main result: for every interleaving that runs to the end, if no bucket overflows, the
  // buckets hold exactly the non-blank entries whose x occurs at least twice, swapped, each
  // in the bucket of its new x, and the next kernel reads no stale cell.
  lemma EveryInterleavingDoesARound(slots: seq<Slot>, l: Layout, schedule: seq<nat>)
    requires AllPlaced(slots) && l.Valid() && Fits(slots, l)
    requires AllDone(Run(slots, l, schedule))
    ensures var m := Run(slots, l, schedule);
      && Round(Edges(slots), Edges(ReadBuckets(l, m, GROUPS)))
      && AllPlaced(ReadBuckets(l, m, GROUPS))
      && forall b, k :: 0 <= b < GROUPS && 0 <= k < |ReadBucket(l, m, b)| ==> l.Cell(b, k) in m.dest
  {
    forall b, k | 0 <= b < GROUPS && 0 <= k < |ReadBucket(l, Run(slots, l, schedule), b)|
      ensures l.Cell(b, k) in Run(slots, l, schedule).dest
    {
      RunKeepsInv(slots, l, schedule);
      TicketsFit(slots, l, Run(slots, l, schedule), b);
      TicketIsInItsCell(slots, l, Run(slots, l, schedule), b, k);
    }
    RunKeepsInv(slots, l, schedule);
    var m := Run(slots, l, schedule);
    var es := Edges(slots);
    BucketsHoldTickets(slots, l, m, GROUPS);
    TicketsUpTo(slots, m, GROUPS);
    SurvivorsAreThose(es, |es|);
    var tickets := AllTickets(m.log, GROUPS);
    forall i: nat
      ensures i in tickets <==> i in Survivors(es, |es|)
    {
      if i < |slots| {
        DoneMeansSurvives(slots, l, m, i);
        if i in m.log[Bucket(slots, i)] {
          var t := PositionIn(m.log[Bucket(slots, i)], i);
          assert HoldsTicket(slots, m.pcs, Bucket(slots, i), t, i);
        }
      }
    }
    DistinctSameMembers(tickets, Survivors(es, |es|));
    MappedPermutation<nat, Edge>(SwappedAt(es), tickets, Survivors(es, |es|));
  }

  // ---- any number of kernels ----

  ghost predicate KernelRound(slots: seq<Slot>, l: Layout, slots': seq<Slot>) {
    && AllPlaced(slots) && l.Valid() && Fits(slots, l)
    && (exists schedule ::
        AllDone(Run(slots, l, schedule)) && slots' == ReadBuckets(l, Run(slots, l, schedule), GROUPS))
  }

  ghost predicate Trimmed(stages: seq<seq<Slot>>, layouts: seq<Layout>) {
    && |stages| == |layouts| + 1
    && forall r :: 0 <= r < |layouts| ==> KernelRound(stages[r], layouts[r], stages[r + 1])
  }

  function EdgeLists(stages: seq<seq<Slot>>): (r: seq<seq<Edge>>)
    ensures |r| == |stages| && forall i :: 0 <= i < |stages| ==> r[i] == Edges(stages[i])
  {
    seq(|stages|, i requires 0 <= i < |stages| => Edges(stages[i]))
  }

  lemma TrimmedIsRounds(stages: seq<seq<Slot>>, layouts: seq<Layout>)
    requires Trimmed(stages, layouts)
    ensures Rounds(EdgeLists(stages))
  {
    forall r | 0 < r < |stages|
      ensures Round(Edges(stages[r - 1]), Edges(stages[r]))
    {
      var k := r - 1;
      assert KernelRound(stages[k], layouts[k], stages[k + 1]);
      var schedule :| AllDone(Run(stages[k], layouts[k], schedule))
        && stages[k + 1] == ReadBuckets(layouts[k], Run(stages[k], layouts[k], schedule), GROUPS);
      EveryInterleavingDoesARound(stages[k], layouts[k], schedule);
    }
  }

  // One or more kernels, each under any interleaving and without overflow, leave exactly
  // the cycles of the graph that do not use the edge (0, 0).
  lemma TrimmingKeepsExactlyCycles(stages: seq<seq<Slot>>, layouts: seq<Layout>, c: seq<Vertex>)
    requires Trimmed(stages, layouts) && |layouts| > 0
    ensures SimpleCycle(Edges(stages[|layouts|]), FlipTimes(c, |layouts|))
      <==> SimpleCycle(Edges(stages[0]), c) && AvoidsBlank(c)
  {
    TrimmedIsRounds(stages, layouts);
    RoundsKeepExactlyCycles(EdgeLists(stages), |layouts|, c);
  }
}
