// What an insertion does to the maps of find_cycles, whatever they hold: forests, directed
// cycles, or paths cut at their maximal length.

module CycleInsert {
  import opened Sequences
  import opened CycleGraph
  import opened CycleSearch
  import opened CycleSoundness
  import opened Words

  // No arc leads back to its own vertex, as arcs run between the two sides.
  ghost predicate NoLoops(p: seq<Vertex>) {
    forall i :: 0 < i < |p| ==> p[i - 1] != p[i]
  }

  // `after` is `arcs` with the path p turned: where p meets a vertex for the first time the arc
  // of that vertex leads one step back along p, the start has none, and all other vertices keep
  // theirs.
  ghost predicate TurnedAlong(arcs: Arcs, after: Arcs, p: seq<Vertex>, n: nat)
    requires n < |p|
  {
    && (forall x :: x !in p[n..] ==> (x in after <==> x in arcs) && (x in arcs ==> after[x] == arcs[x]))
    && (n < |p| - 1 ==> p[n] !in after)
    && (forall k :: n < k < |p| && p[k] !in p[n..k] ==> IsArc(after, p[k], p[k - 1]))
  }

  lemma TurnStep(arcs: Arcs, now: Arcs, p: seq<Vertex>, n: nat)
    requires 0 < n < |p| && NoLoops(p) && TurnedAlong(arcs, now, p, n)
    ensures TurnedAlong(arcs, (now - {p[n - 1]})[p[n] := p[n - 1]], p, n - 1)
  {
    var next := (now - {p[n - 1]})[p[n] := p[n - 1]];
    assert p[n - 1..] == [p[n - 1]] + p[n..];
    forall k | n - 1 < k < |p| && p[k] !in p[n - 1..k]
      ensures IsArc(next, p[k], p[k - 1])
    {
      if k > n {
        assert p[n - 1..k] == [p[n - 1]] + p[n..k];
        assert p[n..k][0] == p[n];
        assert IsArc(now, p[k], p[k - 1]);
      }
    }
  }

  lemma {:induction false} TurnsAlong(arcs: Arcs, now: Arcs, p: seq<Vertex>, n: nat)
    requires n < |p| && NoLoops(p) && TurnedAlong(arcs, now, p, n)
    ensures TurnedAlong(arcs, ReverseArcs(now, p, n), p, 0)
    decreases n
  {
    if n > 0 {
      TurnStep(arcs, now, p, n);
      TurnsAlong(arcs, (now - {p[n - 1]})[p[n] := p[n - 1]], p, n - 1);
    }
  }

  // Reversing any path, also one that runs into a directed cycle or was cut.
  lemma ReversalTurns(arcs: Arcs, p: seq<Vertex>)
    requires |p| > 0 && NoLoops(p)
    ensures TurnedAlong(arcs, ReverseArcs(arcs, p, |p| - 1), p, 0)
  {
    TurnsAlong(arcs, arcs, p, |p| - 1);
  }

  // The start of p hung below v, and p turned.
  ghost predicate Rerooted(arcs: Arcs, after: Arcs, p: seq<Vertex>, v: Vertex)
    requires |p| > 0
  {
    && IsArc(after, p[0], v)
    && (forall k :: 0 < k < |p| && p[k] !in p[..k] ==> IsArc(after, p[k], p[k - 1]))
    && (forall x :: x !in p ==> (x in after <==> x in arcs) && (x in arcs ==> after[x] == arcs[x]))
  }

  lemma RerootedIs(arcs: Arcs, p: seq<Vertex>, v: Vertex)
    requires |p| > 0 && NoLoops(p)
    ensures Rerooted(arcs, ReverseArcs(arcs, p, |p| - 1)[p[0] := v], p, v)
  {
    ReversalTurns(arcs, p);
    assert p[0..] == p;
    forall k | 0 < k < |p| && p[k] !in p[..k]
      ensures p[k] != p[0] && p[k] !in p[0..k]
    {
      assert p[..k][0] == p[0] && p[0..k] == p[..k];
    }
  }

  // The first place of a vertex of p.
  lemma {:induction false} FirstPlace(p: seq<Vertex>, x: Vertex) returns (k: nat)
    requires x in p
    ensures k < |p| && p[k] == x && x !in p[..k]
  {
    if p[0] == x {
      k := 0;
    } else {
      var rest := p[1..];
      assert p == [p[0]] + rest;
      k := FirstPlace(rest, x);
      assert p[..k + 1] == [p[0]] + rest[..k];
      k := k + 1;
    }
  }

  // That says everything: there is one such map.
  lemma RerootedIsUnique(arcs: Arcs, one: Arcs, other: Arcs, p: seq<Vertex>, v: Vertex)
    requires |p| > 0 && Rerooted(arcs, one, p, v) && Rerooted(arcs, other, p, v)
    ensures one == other
  {
    forall x: Vertex
      ensures x in one <==> x in other
      ensures x in one && x in other ==> one[x] == other[x]
    {
      if x in p {
        var k := FirstPlace(p, x);
        assert k > 0 ==> IsArc(one, p[k], p[k - 1]) && IsArc(other, p[k], p[k - 1]);
      }
    }
  }

  // Arcs join the two sides.
  ghost predicate Crosses(arcs: Arcs) {
    forall x :: x in arcs ==> x.Left? != arcs[x].Left?
  }

  lemma CrossingPath(arcs: Arcs, x: Vertex, cap: nat)
    requires Crosses(arcs)
    ensures NoLoops(PathFrom(arcs, x, cap))
  {
    PathFollowsArcs(arcs, x, cap);
    var p := PathFrom(arcs, x, cap);
    forall i | 0 < i < |p|
      ensures p[i - 1] != p[i]
    {
      assert IsArc(arcs, p[i - 1], p[i]);
    }
  }

  function ShorterPath(arcs: Arcs, e: Edge): (p: seq<Vertex>)
    ensures |p| > 0
  {
    if |PathU(arcs, e)| > |PathV(arcs, e)| then PathV(arcs, e) else PathU(arcs, e)
  }

  function OtherEnd(arcs: Arcs, e: Edge): Vertex {
    if |PathU(arcs, e)| > |PathV(arcs, e)| then Left(e.x) else Right(e.y)
  }

  lemma CrossingShorterPath(arcs: Arcs, e: Edge)
    requires Crosses(arcs)
    ensures NoLoops(ShorterPath(arcs, e))
  {
    CrossingPath(arcs, Left(e.x), MAX_PATH_LENGTH);
    CrossingPath(arcs, Right(e.y), MAX_PATH_LENGTH);
  }

  lemma InsertReverses(arcs: Arcs, e: Edge)
    ensures var p := ShorterPath(arcs, e);
      Insert(arcs, e) == ReverseArcs(arcs, p, |p| - 1)[p[0] := OtherEnd(arcs, e)]
  {
  }

  // Whatever the maps hold, an insertion turns the shorter path from where it meets each vertex
  // first, hangs its start below the other end of the edge, and changes no other arc. No other
  // map has these properties.
  lemma InsertIs(arcs: Arcs, e: Edge, after: Arcs)
    requires Crosses(arcs)
    ensures after == Insert(arcs, e) <==> Rerooted(arcs, after, ShorterPath(arcs, e), OtherEnd(arcs, e))
  {
    var p, v := ShorterPath(arcs, e), OtherEnd(arcs, e);
    CrossingShorterPath(arcs, e);
    RerootedIs(arcs, p, v);
    InsertReverses(arcs, e);
    if Rerooted(arcs, after, p, v) {
      RerootedIsUnique(arcs, after, Insert(arcs, e), p, v);
    }
  }

  // So the two ends of the edge are joined by an arc, one way or the other, and every vertex
  // off the shorter path keeps its arc.
  lemma InsertJoinsEnds(arcs: Arcs, e: Edge)
    requires Crosses(arcs)
    ensures Known(Insert(arcs, e), e)
    ensures forall x :: x !in ShorterPath(arcs, e) ==>
      (x in Insert(arcs, e) <==> x in arcs) && (x in arcs ==> Insert(arcs, e)[x] == arcs[x])
  {
    InsertIs(arcs, e, Insert(arcs, e));
  }

  // In every run the arcs join the two sides.
  lemma RunCrosses(edges: seq<Edge>, target: uint32)
    ensures Crosses(Run(edges, target).arcs)
  {
    RunStaysOnEdges(edges, target);
    var arcs := Run(edges, target).arcs;
    forall x | x in arcs
      ensures x.Left? != arcs[x].Left?
    {
      assert Linked(edges, x, arcs[x]);
    }
  }

  // In every run an edge changes nothing when an arc joins its ends already; otherwise it is
  // emitted with the paths, exactly when these meet at the target length, or an arc joins its
  // ends from then on.
  lemma EdgeIsEmittedOrJoined(edges: seq<Edge>, e: Edge, target: uint32)
    requires target > 0
    ensures var s, t := Run(edges, target), Run(edges + [e], target);
      var j := FindJoin(PathU(s.arcs, e), PathV(s.arcs, e));
      && (t == s <==> Known(s.arcs, e))
      && (t.solutions == s.solutions + [Solution(s.arcs, e)] <==>
          !Known(s.arcs, e) && j.found && 1 + j.a + j.b == target)
      && (t.solutions == s.solutions <==> Known(t.arcs, e))
  {
    var s := Run(edges, target);
    RunOneMore(edges, e, target);
    RunCrosses(edges, target);
    InsertJoinsEnds(s.arcs, e);
    EmittedIsMore(s.solutions, Solution(s.arcs, e));
  }

  lemma EmittedIsMore(s: seq<seq<Edge>>, more: seq<Edge>)
    ensures s + [more] != s
  {
    assert |s + [more]| == |s| + 1;
  }
}
