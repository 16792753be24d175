// What one trimming round of c29.cpp does to the list of edges, whatever the order it
// does it in, and what any number of rounds does to the cycles of the graph.

module TrimRounds {
  import opened Sequences
  import opened CycleGraph

  // A (0, 0) entry is taken for an empty one.
  predicate Blank(e: Edge) {
    e.x == 0 && e.y == 0
  }

  function Swap(e: Edge): Edge {
    Edge(e.y, e.x)
  }

  // Another entry has the same x.
  ghost predicate Survives(es: seq<Edge>, i: nat)
    requires i < |es|
  {
    !Blank(es[i]) && exists j :: 0 <= j < |es| && j != i && !Blank(es[j]) && es[j].x == es[i].x
  }

  ghost function Survivors(es: seq<Edge>, n: nat): (s: seq<nat>)
    requires n <= |es|
  {
    if n == 0 then []
    else Survivors(es, n - 1) + if Survives(es, n - 1) then [n - 1] else []
  }

  lemma {:induction false} SurvivorsAreThose(es: seq<Edge>, n: nat)
    requires n <= |es|
    ensures Distinct(Survivors(es, n))
    ensures forall i: nat :: i in Survivors(es, n) <==> i < n && Survives(es, i)
  {
    if n > 0 {
      SurvivorsAreThose(es, n - 1);
    }
  }

  function SwappedAt(es: seq<Edge>): nat -> Edge {
    (i: nat) => if i < |es| then Swap(es[i]) else Edge(0, 0)
  }

  // The entries at these positions, with x and y exchanged.
  function SwapAll(es: seq<Edge>, at: seq<nat>): (r: seq<Edge>)
    ensures |r| == |at|
    ensures forall k :: 0 <= k < |at| && at[k] < |es| ==> r[k] == Swap(es[at[k]])
  {
    Mapped<nat, Edge>(SwappedAt(es), at)
  }

  // One round: the survivors, with x and y exchanged.
  ghost function Trim(es: seq<Edge>): seq<Edge> {
    SwapAll(es, Survivors(es, |es|))
  }

  // es' is what a round leaves of es, in any order.
  ghost predicate Round(es: seq<Edge>, es': seq<Edge>) {
    multiset(es') == multiset(Trim(es))
  }

  lemma RoundMembers(es: seq<Edge>, es': seq<Edge>, e: Edge)
    requires Round(es, es')
    ensures e in es' <==> exists i :: 0 <= i < |es| && Survives(es, i) && es[i] == Swap(e)
  {
    SameMembers(es', Trim(es));
    SurvivorsAreThose(es, |es|);
    var s := Survivors(es, |es|);
    if e in es' {
      var k :| 0 <= k < |Trim(es)| && Trim(es)[k] == e;
      assert s[k] in s && es[s[k]] == Swap(e);
    }
    if i :| 0 <= i < |es| && Survives(es, i) && es[i] == Swap(e) {
      var k := PositionIn(s, i);
      assert Trim(es)[k] == e;
    }
  }

  // ---- no edge is invented ----

  lemma OneMore<T>(a: seq<T>, b: seq<T>, x: T)
    requires multiset(a) <= multiset(b)
    ensures multiset(a + [x]) <= multiset(b + [x])
    ensures multiset(a) <= multiset(b + [x])
  {
    assert multiset(a + [x]) == multiset(a) + multiset{x};
    assert multiset(b + [x]) == multiset(b) + multiset{x};
  }

  lemma {:induction false} SwappedPart(es: seq<Edge>, n: nat)
    requires n <= |es|
    ensures multiset(SwapAll(es, Survivors(es, n))) <= multiset(Mapped(Swap, es[..n]))
  {
    if n > 0 {
      SwappedPart(es, n - 1);
      var s := Survivors(es, n - 1);
      OneMore(SwapAll(es, s), Mapped(Swap, es[..n - 1]), Swap(es[n - 1]));
      OneMoreSwapped(es, n - 1, s);
      assert Survivors(es, n) == if Survives(es, n - 1) then s + [n - 1] else s;
    }
  }

  lemma OneMoreSwapped(es: seq<Edge>, n: nat, s: seq<nat>)
    requires n < |es|
    ensures Mapped(Swap, es[..n + 1]) == Mapped(Swap, es[..n]) + [Swap(es[n])]
    ensures SwapAll(es, s + [n]) == SwapAll(es, s) + [Swap(es[n])]
  {
    MappedConcat(SwappedAt(es), s, [n]);
  }

  // With multiplicity: each edge left by a round is one of the edges it was given, swapped.
  lemma RoundInventsNothing(es: seq<Edge>, es': seq<Edge>)
    requires Round(es, es')
    ensures multiset(es') <= multiset(Mapped(Swap, es))
  {
    SwappedPart(es, |es|);
    assert es[..|es|] == es;
  }

  // ---- cycles ----

  function Flip(v: Vertex): Vertex {
    match v
    case Left(i) => Right(i)
    case Right(i) => Left(i)
  }

  // The cycle does not use the edge that is taken for an empty entry.
  ghost predicate AvoidsBlank(c: seq<Vertex>) {
    forall i :: 0 <= i < |c| ==> c[i].id != 0 || After(c, i).id != 0
  }

  // Both cycle edges at a left vertex survive, because there are two of them.
  lemma StepSurvives(es: seq<Edge>, c: seq<Vertex>, k: nat) returns (i: nat)
    requires SimpleCycle(es, c) && AvoidsBlank(c) && k < |c|
    ensures i < |es| && es[i] == EdgeOf(c[k], After(c, k)) && Survives(es, i)
  {
    var next := if k + 1 == |c| then 0 else k + 1;
    var prev := if k == 0 then |c| - 1 else k - 1;
    assert Linked(es, c[k], After(c, k)) && After(c, k) == c[next];
    assert Linked(es, c[prev], After(c, prev)) && After(c, prev) == c[k];
    assert Linked(es, c[next], After(c, next));
    var other := if c[k].Left? then EdgeOf(c[prev], c[k]) else EdgeOf(c[next], After(c, next));
    i := PositionIn(es, EdgeOf(c[k], c[next]));
    var j := PositionIn(es, other);
    var afterNext := if next + 1 == |c| then 0 else next + 1;
    assert After(c, next) == c[afterNext] && afterNext != k && prev != next;
    assert c[prev] != c[next] && c[afterNext] != c[k];
  }

  lemma RoundKeepsCycle(es: seq<Edge>, es': seq<Edge>, c: seq<Vertex>)
    requires Round(es, es') && SimpleCycle(es, c) && AvoidsBlank(c)
    ensures SimpleCycle(es', Mapped(Flip, c)) && AvoidsBlank(Mapped(Flip, c))
  {
    var d := Mapped(Flip, c);
    forall k | 0 <= k < |d|
      ensures Linked(es', d[k], After(d, k))
      ensures d[k].id != 0 || After(d, k).id != 0
    {
      assert After(d, k) == Flip(After(c, k));
      assert Linked(es, c[k], After(c, k));
      var i := StepSurvives(es, c, k);
      RoundMembers(es, es', Swap(es[i]));
    }
  }

  lemma RoundCyclesWereThere(es: seq<Edge>, es': seq<Edge>, d: seq<Vertex>)
    requires Round(es, es') && SimpleCycle(es', d)
    ensures SimpleCycle(es, Mapped(Flip, d)) && AvoidsBlank(Mapped(Flip, d))
  {
    var c := Mapped(Flip, d);
    forall k | 0 <= k < |c|
      ensures Linked(es, c[k], After(c, k))
      ensures c[k].id != 0 || After(c, k).id != 0
    {
      assert After(c, k) == Flip(After(d, k));
      assert Linked(es', d[k], After(d, k));
      RoundMembers(es, es', EdgeOf(d[k], After(d, k)));
    }
  }

  // ---- any number of rounds ----

  ghost predicate Rounds(lists: seq<seq<Edge>>) {
    && |lists| > 0
    && forall r :: 0 < r < |lists| ==> Round(lists[r - 1], lists[r])
  }

  function FlipTimes(c: seq<Vertex>, n: nat): (d: seq<Vertex>)
    ensures |d| == |c|
    ensures forall i :: 0 <= i < |c| ==> d[i] == if n % 2 == 0 then c[i] else Flip(c[i])
  {
    if n % 2 == 0 then c else Mapped(Flip, c)
  }

  // After one or more rounds the cycles of the graph are exactly the cycles it had before
  // that do not use the edge (0, 0).
  lemma {:induction false} RoundsKeepExactlyCycles(lists: seq<seq<Edge>>, n: nat, c: seq<Vertex>)
    requires Rounds(lists) && 0 < n < |lists|
    ensures SimpleCycle(lists[n], FlipTimes(c, n)) <==> SimpleCycle(lists[0], c) && AvoidsBlank(c)
    decreases n
  {
    assert Round(lists[n - 1], lists[n]);
    var before, after := FlipTimes(c, n - 1), FlipTimes(c, n);
    assert Mapped(Flip, before) == after;
    assert Mapped(Flip, after) == before;
    if n > 1 {
      RoundsKeepExactlyCycles(lists, n - 1, c);
    }
    if SimpleCycle(lists[n], after) {
      RoundCyclesWereThere(lists[n - 1], lists[n], after);
    }
    if SimpleCycle(lists[0], c) && AvoidsBlank(c) {
      AvoidingFlips(c, n - 1);
      RoundKeepsCycle(lists[n - 1], lists[n], before);
    }
  }

  lemma AvoidingFlips(c: seq<Vertex>, n: nat)
    requires AvoidsBlank(c)
    ensures AvoidsBlank(FlipTimes(c, n))
  {
    var d := FlipTimes(c, n);
    forall i | 0 <= i < |d|
      ensures d[i].id != 0 || After(d, i).id != 0
    {
      assert c[i].id != 0 || After(c, i).id != 0;
    }
  }

  // So not every cycle survives: this one is gone after one round.
  lemma CycleThroughBlankIsLost(es': seq<Edge>)
    requires Round([Edge(0, 0), Edge(0, 1), Edge(1, 0), Edge(1, 1)], es')
    ensures SimpleCycle([Edge(0, 0), Edge(0, 1), Edge(1, 0), Edge(1, 1)], [Left(0), Right(0), Left(1), Right(1)])
    ensures !SimpleCycle(es', [Right(0), Left(0), Right(1), Left(1)])
  {
    var es := [Edge(0, 0), Edge(0, 1), Edge(1, 0), Edge(1, 1)];
    assert es[0] in es && es[1] in es && es[2] in es && es[3] in es;
    var d := [Right(0), Left(0), Right(1), Left(1)];
    var c := Mapped(Flip, d);
    assert c[0].id == 0 && After(c, 0).id == 0;
    if SimpleCycle(es', d) {
      RoundCyclesWereThere(es, es', d);
    }
  }
}
