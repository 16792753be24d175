// Every list find_cycles emits for a positive even target is a simple cycle of the input
// graph with that many edges; what it emits for any other target is never a cycle.

module CycleSoundness {
  import opened Sequences
  import opened CycleGraph
  import opened CycleSearch
  import opened Words

  // Arcs join the two sides and run along input edges. This is all soundness needs: the
  // arcs may contain directed cycles, and ids may occur on both sides.
  ghost predicate FromEdges(arcs: Arcs, edges: seq<Edge>) {
    forall x :: x in arcs ==> Linked(edges, x, arcs[x])
  }

  // ---- paths ----

  // The arcs of a path, by index, and where it ends.
  lemma {:induction false} PathFollowsArcs(arcs: Arcs, x: Vertex, cap: nat)
    ensures var p := PathFrom(arcs, x, cap);
      && FollowsArcs(arcs, p)
      && (|p| < cap ==> p[|p| - 1] !in arcs)
      && |p| <= cap + 1
    decreases cap
  {
    if !(cap <= 1 || x !in arcs) {
      PathFollowsArcs(arcs, arcs[x], cap - 1);
      var p, q := PathFrom(arcs, x, cap), PathFrom(arcs, arcs[x], cap - 1);
      assert p == [x] + q;
      forall i | 0 < i < |p|
        ensures IsArc(arcs, p[i - 1], p[i])
      {
        assert p[i] == q[i - 1];
        if i > 1 {
          assert IsArc(arcs, q[i - 2], q[i - 1]);
        }
      }
    }
  }

  // A path that meets a vertex again repeats itself from there.
  lemma {:induction false} PathRepeats(arcs: Arcs, p: seq<Vertex>, i: nat, k: nat, t: nat)
    requires FollowsArcs(arcs, p)
    requires i <= k && k + t < |p| && p[i] == p[k]
    ensures p[i + t] == p[k + t]
    decreases t
  {
    if t > 0 {
      PathRepeats(arcs, p, i, k, t - 1);
      assert IsArc(arcs, p[i + t - 1], p[i + t]) && IsArc(arcs, p[k + t - 1], p[k + t]);
    }
  }

  // The part of a path before the first occurrence of the id at index n is simple.
  lemma SimpleUpTo(arcs: Arcs, p: seq<Vertex>, n: nat)
    requires FollowsArcs(arcs, p)
    requires n < |p|
    requires forall m :: 0 <= m < n ==> p[m] != p[n]
    ensures Distinct(p[..n + 1])
  {
    forall i, k | 0 <= i < k < n + 1
      ensures p[i] != p[k]
    {
      if p[i] == p[k] {
        PathRepeats(arcs, p, i, k, n - k);
        assert false;
      }
    }
  }

  lemma PathSides(arcs: Arcs, edges: seq<Edge>, p: seq<Vertex>, i: nat)
    requires FromEdges(arcs, edges)
    requires FollowsArcs(arcs, p)
    requires i < |p|
    ensures p[i].Left? == (p[0].Left? == (i % 2 == 0))
  {
    ChainIsWalk(arcs, edges, p);
    SidesAlternate(edges, p, i);
  }

  // ---- the emitted list ----

  // The vertices of the closed cycle: from the join back to u, over the edge to v, on to
  // just before the join.
  function CycleVertices(pu: seq<Vertex>, pv: seq<Vertex>, a: nat, b: nat): (c: seq<Vertex>)
    requires a < |pu| && b < |pv|
    ensures |c| == 1 + a + b
    ensures forall i :: 0 <= i <= a ==> c[i] == pu[a - i]
    ensures forall i :: 0 <= i < b ==> c[a + 1 + i] == pv[i]
  {
    Reversed(pu[..a + 1]) + pv[..b]
  }

  // Two paths that first meet in one vertex close a simple cycle with the edge between
  // their starts, and the emitted pairs tour it.
  lemma MeetingPathsCloseACycle(arcs: Arcs, edges: seq<Edge>, e: Edge, all: seq<Edge>)
    requires FromEdges(arcs, edges) && !Known(arcs, e)
    requires e in all && forall f :: f in edges ==> f in all
    requires var j := FindJoin(PathU(arcs, e), PathV(arcs, e));
      j.found && PathU(arcs, e)[j.a] == PathV(arcs, e)[j.b]
    ensures var pu, pv := PathU(arcs, e), PathV(arcs, e);
      var j := FindJoin(pu, pv);
      var c := CycleVertices(pu, pv, j.a, j.b);
      && SimpleCycle(all, c) && |c| == j.CycleLength()
      && IsCycleOf(all, Solution(arcs, e)) && |Solution(arcs, e)| == j.CycleLength()
  {
    var pu, pv := PathU(arcs, e), PathV(arcs, e);
    var j := FindJoin(pu, pv);
    var a, b := j.a, j.b;
    PathFollowsArcs(arcs, Left(e.x), MAX_PATH_LENGTH);
    PathFollowsArcs(arcs, Right(e.y), MAX_PATH_LENGTH);
    PathSides(arcs, edges, pu, a);
    PathSides(arcs, edges, pv, b);
    assert a + b >= 2;
    assert forall m :: 0 <= m < a ==> pu[m].id != pv[b].id;
    SimpleUpTo(arcs, pu, a);
    SimpleUpTo(arcs, pv, b);
    var c := CycleVertices(pu, pv, a, b);
    JoinedPathsDistinct(pu, pv, a, b);
    JoinedPathsLinked(arcs, edges, e, all, a, b);
    assert SimpleCycle(all, c);
    JoinedPathsTour(e, pu, pv, a, b);
  }

  lemma JoinedPathsDistinct(pu: seq<Vertex>, pv: seq<Vertex>, a: nat, b: nat)
    requires a < |pu| && b < |pv| && pu[a] == pv[b]
    requires Distinct(pu[..a + 1]) && Distinct(pv[..b + 1])
    requires forall i, k :: 0 <= i < a && 0 <= k < |pv| ==> pu[i].id != pv[k].id
    ensures Distinct(CycleVertices(pu, pv, a, b))
  {
    var c := CycleVertices(pu, pv, a, b);
    forall i, k | 0 <= i < k < |c|
      ensures c[i] != c[k]
    {
      if k <= a {
        assert pu[..a + 1][a - k] == pu[a - k] && pu[..a + 1][a - i] == pu[a - i];
      } else {
        assert c[k] == pv[k - a - 1] == pv[..b + 1][k - a - 1];
        if i > a {
          assert c[i] == pv[i - a - 1] == pv[..b + 1][i - a - 1];
        } else if i == 0 {
          assert pv[..b + 1][b] == pv[b];
        }
      }
    }
  }

  lemma JoinedPathsLinked(arcs: Arcs, edges: seq<Edge>, e: Edge, all: seq<Edge>, a: nat, b: nat)
    requires FromEdges(arcs, edges)
    requires e in all && forall f :: f in edges ==> f in all
    requires a < |PathU(arcs, e)| && b < |PathV(arcs, e)| && PathU(arcs, e)[a] == PathV(arcs, e)[b]
    ensures var c := CycleVertices(PathU(arcs, e), PathV(arcs, e), a, b);
      forall i :: 0 <= i < |c| ==> Linked(all, c[i], After(c, i))
  {
    var pu, pv := PathU(arcs, e), PathV(arcs, e);
    PathFollowsArcs(arcs, Left(e.x), MAX_PATH_LENGTH);
    PathFollowsArcs(arcs, Right(e.y), MAX_PATH_LENGTH);
    var c := CycleVertices(pu, pv, a, b);
    forall i | 0 <= i < |c|
      ensures Linked(all, c[i], After(c, i))
    {
      if i < a {
        var k := a - i;
        assert c[i] == pu[k] && c[i + 1] == pu[k - 1];
        assert IsArc(arcs, pu[k - 1], pu[k]);
      } else if i == a {
        assert c[i] == pu[0];
        assert After(c, i) == pv[0];
      } else {
        var k := i - a;
        assert c[i] == pv[k - 1];
        assert After(c, i) == pv[k];
        assert IsArc(arcs, pv[k - 1], pv[k]);
      }
    }
  }

  // Step i of the cycle is named by the pair that the reordering puts there.
  lemma PairNamesStep(e: Edge, pu: seq<Vertex>, pv: seq<Vertex>, a: nat, b: nat, i: nat)
    requires a < |pu| && b < |pv| && pu[a] == pv[b] && i <= a + b
    requires pu[0] == Left(e.x) && pv[0] == Right(e.y)
    ensures var found, c := [e] + PathPairs(pu, a) + PathPairs(pv, b), CycleVertices(pu, pv, a, b);
      Names(found[if i <= a then a - i else i], c[i], After(c, i))
  {
    var found, c := [e] + PathPairs(pu, a) + PathPairs(pv, b), CycleVertices(pu, pv, a, b);
    if i < a {
      var k := a - i;
      assert found[k] == Edge(pu[k].id, pu[k - 1].id);
      assert c[i] == pu[k] && c[i + 1] == pu[k - 1];
    } else if i == a {
      assert found[0] == e && c[i] == pu[0] && After(c, i) == pv[0];
    } else {
      var k := i - a;
      assert found[i] == Edge(pv[k].id, pv[k - 1].id);
      assert c[i] == pv[k - 1] && After(c, i) == pv[k];
    }
  }

  lemma JoinedPathsTour(e: Edge, pu: seq<Vertex>, pv: seq<Vertex>, a: nat, b: nat)
    requires a < |pu| && b < |pv| && pu[a] == pv[b]
    requires pu[0] == Left(e.x) && pv[0] == Right(e.y)
    ensures var found := [e] + PathPairs(pu, a) + PathPairs(pv, b);
      exists ordered :: Tours(found, ordered, CycleVertices(pu, pv, a, b))
  {
    var found := [e] + PathPairs(pu, a) + PathPairs(pv, b);
    var c := CycleVertices(pu, pv, a, b);
    var ordered := Reversed(found[..a + 1]) + found[a + 1..];
    ReversedMultiset(found[..a + 1]);
    assert found == found[..a + 1] + found[a + 1..];
    forall i | 0 <= i < |c|
      ensures Names(ordered[i], c[i], After(c, i))
    {
      assert ordered[i] == found[if i <= a then a - i else i];
      PairNamesStep(e, pu, pv, a, b, i);
    }
    assert Tours(found, ordered, c);
  }

  // ---- the arcs stay on input edges ----

  lemma {:induction false} ReversalStaysOnEdges(arcs: Arcs, edges: seq<Edge>, p: seq<Vertex>, n: nat)
    requires FromEdges(arcs, edges) && n < |p|
    requires IsWalk(edges, p)
    ensures FromEdges(ReverseArcs(arcs, p, n), edges)
    decreases n
  {
    if n > 0 {
      assert Linked(edges, p[n - 1], p[n]);
      ReversalStaysOnEdges((arcs - {p[n - 1]})[p[n] := p[n - 1]], edges, p, n - 1);
    }
  }

  lemma ChainIsWalk(arcs: Arcs, edges: seq<Edge>, p: seq<Vertex>)
    requires FromEdges(arcs, edges) && |p| > 0 && FollowsArcs(arcs, p)
    ensures IsWalk(edges, p)
  {
    forall m | 0 < m < |p|
      ensures Linked(edges, p[m - 1], p[m])
    {
      assert IsArc(arcs, p[m - 1], p[m]);
    }
  }

  lemma InsertStaysOnEdges(arcs: Arcs, edges: seq<Edge>, e: Edge)
    requires FromEdges(arcs, edges) && e in edges
    ensures FromEdges(Insert(arcs, e), edges)
  {
    var pu, pv := PathU(arcs, e), PathV(arcs, e);
    PathFollowsArcs(arcs, Left(e.x), MAX_PATH_LENGTH);
    PathFollowsArcs(arcs, Right(e.y), MAX_PATH_LENGTH);
    ChainIsWalk(arcs, edges, pu);
    ChainIsWalk(arcs, edges, pv);
    ReversalStaysOnEdges(arcs, edges, pu, |pu| - 1);
    ReversalStaysOnEdges(arcs, edges, pv, |pv| - 1);
  }

  // ---- main result ----

  // Parity puts a join of the right length on one side: it is a common vertex, not just a
  // common id.
  lemma EvenJoinIsAVertex(arcs: Arcs, edges: seq<Edge>, e: Edge)
    requires FromEdges(arcs, edges)
    requires var j := FindJoin(PathU(arcs, e), PathV(arcs, e)); j.found && j.CycleLength() % 2 == 0
    ensures var j := FindJoin(PathU(arcs, e), PathV(arcs, e));
      PathU(arcs, e)[j.a] == PathV(arcs, e)[j.b]
  {
    var pu, pv := PathU(arcs, e), PathV(arcs, e);
    var j := FindJoin(pu, pv);
    PathFollowsArcs(arcs, Left(e.x), MAX_PATH_LENGTH);
    PathFollowsArcs(arcs, Right(e.y), MAX_PATH_LENGTH);
    PathSides(arcs, edges, pu, j.a);
    PathSides(arcs, edges, pv, j.b);
  }

  lemma {:induction false} RunStaysOnEdges(edges: seq<Edge>, target: uint32)
    ensures FromEdges(Run(edges, target).arcs, edges)
  {
    if |edges| > 0 {
      var before, e := edges[..|edges| - 1], edges[|edges| - 1];
      RunStaysOnEdges(before, target);
      var s := Run(before, target);
      assert FromEdges(s.arcs, edges);
      InsertStaysOnEdges(s.arcs, edges, e);
    }
  }

  // For every edge list and target: each emitted list has `target` pairs (one for target 0)
  // and is a simple cycle of the input graph if and only if the target is even and positive.
  lemma {:induction false} EmittedAreCycles(edges: seq<Edge>, target: uint32)
    ensures forall s :: s in Run(edges, target).solutions ==>
      && |s| == (if target == 0 then 1 else target)
      && (IsCycleOf(edges, s) <==> target % 2 == 0 && target > 0)
    ensures target == 2 ==> Run(edges, target).solutions == []
  {
    if |edges| > 0 {
      var before, e := edges[..|edges| - 1], edges[|edges| - 1];
      assert edges == before + [e];
      EmittedAreCycles(before, target);
      RunStaysOnEdges(before, target);
      var s := Run(before, target);
      forall found | found in Run(edges, target).solutions
        ensures |found| == (if target == 0 then 1 else target)
        ensures IsCycleOf(edges, found) <==> target % 2 == 0 && target > 0
        ensures target != 2
      {
        if found in s.solutions {
          if IsCycleOf(before, found) {
            MoreEdgesKeepFound(before, edges, found);
          }
        } else {
          NewSolution(s.arcs, before, edges, e, target);
        }
        if IsCycleOf(edges, found) {
          FoundCyclesAreEven(edges, found);
        }
      }
    }
  }

  lemma NewSolution(arcs: Arcs, before: seq<Edge>, edges: seq<Edge>, e: Edge, target: uint32)
    requires FromEdges(arcs, before) && !Known(arcs, e) && edges == before + [e]
    requires FindJoin(PathU(arcs, e), PathV(arcs, e)).CycleLength() == target
    ensures |Solution(arcs, e)| == (if target == 0 then 1 else target)
    ensures target % 2 == 0 && target > 0 ==> IsCycleOf(edges, Solution(arcs, e))
  {
    if target % 2 == 0 && target > 0 {
      EvenJoinIsAVertex(arcs, before, e);
      MeetingPathsCloseACycle(arcs, before, e, edges);
    }
  }
}
