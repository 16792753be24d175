// find_cycles, create_path and reverse_path of c29.cpp on the two maps they update in
// place, proved against the functions of CycleSearch.

module CycleFinder {
  import opened Sequences
  import opened CycleGraph
  import opened CycleSearch
  import opened CycleSoundness
  import opened Words

  // graph_u and graph_v hold exactly these arcs.
  ghost predicate Hold(gu: map<uint32, uint32>, gv: map<uint32, uint32>, arcs: Arcs) {
    && (forall a :: Left(a) in arcs <==> a in gu)
    && (forall b :: Right(b) in arcs <==> b in gv)
    && (forall a :: a in gu ==> arcs[Left(a)] == Right(gu[a]))
    && (forall b :: b in gv ==> arcs[Right(b)] == Left(gv[b]))
  }

  function OnSide(left: bool, id: uint32): Vertex {
    if left then Left(id) else Right(id)
  }

  // The vertices of a path of bare ids: sides alternate from the first one.
  function WithSides(path: seq<uint32>, startsInU: bool): (p: seq<Vertex>)
    ensures |p| == |path|
    ensures forall i :: 0 <= i < |path| ==> p[i] == OnSide(startsInU == (i % 2 == 0), path[i])
  {
    seq(|path|, i requires 0 <= i < |path| => OnSide(startsInU == (i % 2 == 0), path[i]))
  }

  // The two maps together have one entry per arc.
  lemma {:induction false} EntriesAreArcs(gu: map<uint32, uint32>, gv: map<uint32, uint32>, arcs: Arcs)
    requires Hold(gu, gv, arcs)
    ensures |arcs| == |gu| + |gv|
    decreases |gu| + |gv|
  {
    if a :| a in gu {
      Shrinks(gu, a);
      Shrinks(arcs, Left(a));
      HoldWithout(gu, gv, arcs, true, a);
      EntriesAreArcs(gu - {a}, gv, arcs - {Left(a)});
    } else if b :| b in gv {
      Shrinks(gv, b);
      Shrinks(arcs, Right(b));
      HoldWithout(gu, gv, arcs, false, b);
      EntriesAreArcs(gu, gv - {b}, arcs - {Right(b)});
    } else {
      forall x: Vertex
        ensures x !in arcs
      {
        assert x == Left(x.id) || x == Right(x.id);
      }
      assert arcs.Keys == {};
    }
  }

  lemma HoldWithout(gu: map<uint32, uint32>, gv: map<uint32, uint32>, arcs: Arcs, inU: bool, id: uint32)
    requires Hold(gu, gv, arcs)
    ensures Hold(if inU then gu - {id} else gu, if inU then gv else gv - {id}, arcs - {OnSide(inU, id)})
  {
  }

  lemma NextVertex(gu: map<uint32, uint32>, gv: map<uint32, uint32>, arcs: Arcs, inU: bool, id: uint32)
    requires Hold(gu, gv, arcs)
    ensures id in (if inU then gu else gv) <==> OnSide(inU, id) in arcs
    ensures id in (if inU then gu else gv) ==> arcs[OnSide(inU, id)] == OnSide(!inU, (if inU then gu else gv)[id])
  {
  }

  lemma Shrinks<K, V>(m: map<K, V>, k: K)
    requires k in m
    ensures |m - {k}| + 1 == |m|
  {
    assert (m - {k}).Keys == m.Keys - {k};
    assert |(m - {k}).Keys| == |m - {k}|;
    assert |m.Keys| == |m|;
  }

  lemma KnownIsHeld(gu: map<uint32, uint32>, gv: map<uint32, uint32>, arcs: Arcs, e: Edge)
    requires Hold(gu, gv, arcs)
    ensures Known(arcs, e) <==> (e.x in gu && gu[e.x] == e.y) || (e.y in gv && gv[e.y] == e.x)
  {
    assert Left(e.x) in arcs <==> e.x in gu;
    assert Right(e.y) in arcs <==> e.y in gv;
  }

  // A path found in the two maps alternates sides, so its bare ids determine it.
  lemma {:induction false} PathAlternates(gu: map<uint32, uint32>, gv: map<uint32, uint32>, arcs: Arcs,
                                              x: Vertex, cap: nat, i: nat)
    requires Hold(gu, gv, arcs) && i < |PathFrom(arcs, x, cap)|
    ensures PathFrom(arcs, x, cap)[i].Left? == (x.Left? == (i % 2 == 0))
    decreases i
  {
    if i > 0 {
      PathFollowsArcs(arcs, x, cap);
      PathAlternates(gu, gv, arcs, x, cap, i - 1);
      var p := PathFrom(arcs, x, cap);
      assert IsArc(arcs, p[i - 1], p[i]);
      assert p[i - 1] == Left(p[i - 1].id) || p[i - 1] == Right(p[i - 1].id);
    }
  }

  lemma IdsDeterminePath(gu: map<uint32, uint32>, gv: map<uint32, uint32>, arcs: Arcs, x: Vertex, cap: nat)
    requires Hold(gu, gv, arcs)
    ensures WithSides(Ids(PathFrom(arcs, x, cap)), x.Left?) == PathFrom(arcs, x, cap)
  {
    var p := PathFrom(arcs, x, cap);
    forall i | 0 <= i < |p|
      ensures WithSides(Ids(p), x.Left?)[i] == p[i]
    {
      PathAlternates(gu, gv, arcs, x, cap, i);
    }
  }

  lemma PathStep(arcs: Arcs, x: Vertex, n: nat, all: seq<uint32>, path: seq<uint32>)
    requires n > 1 && x in arcs && |path| > 0 && Last(path) == x.id
    requires all == Front(path) + Ids(PathFrom(arcs, x, n))
    ensures all == path + Ids(PathFrom(arcs, arcs[x], n - 1))
  {
    assert Ids(PathFrom(arcs, x, n)) == [x.id] + Ids(PathFrom(arcs, arcs[x], n - 1));
    FrontAndLast(path);
  }

  lemma PathEnds(arcs: Arcs, x: Vertex, n: nat, path: seq<uint32>)
    requires (n <= 1 || x !in arcs) && |path| > 0 && Last(path) == x.id
    ensures path == Front(path) + Ids(PathFrom(arcs, x, n))
  {
    FrontAndLast(path);
  }

  lemma FrontOfAppended(path: seq<uint32>, x: uint32)
    ensures Front(path + [x]) == path && Last(path + [x]) == x
  {
  }

  class Graphs {
    var graphU: map<uint32, uint32>
    var graphV: map<uint32, uint32>
    ghost var arcs: Arcs

    ghost predicate Valid()
      reads this
    {
      Hold(graphU, graphV, arcs)
    }

    constructor ()
      ensures Valid() && arcs == map[]
    {
      graphU, graphV, arcs := map[], map[], map[];
    }

    method CreatePath(startInU: bool, startNode: uint32, maxPathLength: nat)
      returns (path: seq<uint32>)
      requires Valid()
      ensures path == Ids(PathFrom(arcs, OnSide(startInU, startNode), maxPathLength))
    {
      path := [startNode];
      var currentInU := startInU;
      var current := startNode;
      ghost var x := OnSide(startInU, startNode);
      ghost var all := Ids(PathFrom(arcs, x, maxPathLength));
      NextVertex(graphU, graphV, arcs, currentInU, current);
      while current in (if currentInU then graphU else graphV) && |path| < maxPathLength
        invariant 0 < |path| <= maxPathLength + 1
        invariant x == OnSide(currentInU, current) && Last(path) == current
        invariant current in (if currentInU then graphU else graphV) <==> x in arcs
        invariant all == Front(path) + Ids(PathFrom(arcs, x, maxPathLength + 1 - |path|))
        decreases maxPathLength - |path|
      {
        var next := (if currentInU then graphU else graphV)[current];
        NextVertex(graphU, graphV, arcs, currentInU, current);
        PathStep(arcs, x, maxPathLength + 1 - |path|, all, path);
        FrontOfAppended(path, next);
        path := path + [next];
        currentInU := !currentInU;
        current := next;
        x := arcs[x];
        NextVertex(graphU, graphV, arcs, currentInU, current);
      }
      PathEnds(arcs, x, maxPathLength + 1 - |path|, path);
    }

    method ReversePath(path: seq<uint32>, startsInU: bool)
      requires Valid() && |path| > 0
      modifies this
      ensures Valid()
      ensures arcs == ReverseArcs(old(arcs), WithSides(path, startsInU), |path| - 1)
    {
      ghost var p := WithSides(path, startsInU);
      var i := |path| - 2;
      while i >= 0
        invariant -1 <= i <= |path| - 2 && Valid()
        invariant ReverseArcs(arcs, p, i + 1) == ReverseArcs(old(arcs), p, |path| - 1)
      {
        var nodeA, nodeB := path[i], path[i + 1];
        var removeFromV := if startsInU then i % 2 == 1 else i % 2 == 0;
        assert p[i] == OnSide(!removeFromV, nodeA) && p[i + 1] == OnSide(removeFromV, nodeB);
        Erase(removeFromV, nodeA);
        Assign(!removeFromV, nodeB, nodeA);
        i := i - 1;
      }
    }

    method Erase(fromV: bool, a: uint32)
      requires Valid()
      modifies this
      ensures Valid() && arcs == old(arcs) - {OnSide(!fromV, a)}
    {
      if fromV {
        graphV := graphV - {a};
      } else {
        graphU := graphU - {a};
      }
      arcs := arcs - {OnSide(!fromV, a)};
    }

    method Assign(inV: bool, a: uint32, b: uint32)
      requires Valid()
      modifies this
      ensures Valid() && arcs == old(arcs)[OnSide(!inV, a) := OnSide(inV, b)]
    {
      if inV {
        graphV := graphV[a := b];
      } else {
        graphU := graphU[a := b];
      }
      arcs := arcs[OnSide(!inV, a) := OnSide(inV, b)];
    }

    // The insert branch: reverse the shorter path, then hang its start below the other end.
    method InsertEdge(e: Edge, pathFromU: seq<uint32>, pathFromV: seq<uint32>)
      requires Valid() && pathFromU == Ids(PathU(arcs, e)) && pathFromV == Ids(PathV(arcs, e))
      modifies this
      ensures Valid() && arcs == Insert(old(arcs), e)
    {
      IdsDeterminePath(graphU, graphV, arcs, Left(e.x), MAX_PATH_LENGTH);
      IdsDeterminePath(graphU, graphV, arcs, Right(e.y), MAX_PATH_LENGTH);
      if |pathFromU| > |pathFromV| {
        ReversePath(pathFromV, false);
        Assign(true, e.y, e.x);
      } else {
        ReversePath(pathFromU, true);
        Assign(false, e.x, e.y);
      }
    }
  }

  method FindFirst(s: seq<uint32>, x: uint32) returns (k: nat)
    ensures k == IndexOf(s, x, 0)
  {
    k := 0;
    while k < |s| && s[k] != x
      invariant k <= |s| && IndexOf(s, x, 0) == IndexOf(s, x, k)
    {
      k := k + 1;
    }
  }

  // join_a and join_b, -1 when the paths share no id.
  method JoinPaths(pathFromU: seq<uint32>, pathFromV: seq<uint32>) returns (joinA: int, joinB: int)
    ensures var a := FirstShared(pathFromU, pathFromV, 0);
      if a < |pathFromU| then joinA == a && joinB == IndexOf(pathFromV, pathFromU[a], 0)
      else joinA == -1 && joinB == -1
  {
    joinA, joinB := -1, -1;
    var i := 0;
    while i < |pathFromU| && joinA == -1
      invariant i <= |pathFromU| && joinA == -1 && joinB == -1
      invariant FirstShared(pathFromU, pathFromV, 0) == FirstShared(pathFromU, pathFromV, i)
    {
      var k := FindFirst(pathFromV, pathFromU[i]);
      if k < |pathFromV| {
        assert pathFromV[k] in pathFromV;
        joinA, joinB := i, k;
        break;
      }
      i := i + 1;
    }
  }

  lemma MorePairs(found: seq<Edge>, p: seq<Vertex>, i: nat)
    requires i + 1 < |p|
    ensures found + PathPairs(p, i) + [Edge(p[i + 1].id, p[i].id)] == found + PathPairs(p, i + 1)
  {
  }

  method AppendPairs(found: seq<Edge>, path: seq<uint32>, n: int, ghost p: seq<Vertex>) returns (more: seq<Edge>)
    requires path == Ids(p) && n < |path| && |p| > 0
    ensures more == found + PathPairs(p, if n < 0 then 0 else n)
  {
    more := found;
    var i := 0;
    while i < n
      invariant 0 <= i && (n >= 0 ==> i <= n) && (n < 0 ==> i == 0)
      invariant more == found + PathPairs(p, i)
    {
      MorePairs(found, p, i);
      more := more + [Edge(path[i + 1], path[i])];
      i := i + 1;
    }
  }

  // The indices found are those of FindJoin, -1 for both when it finds none.
  predicate JoinAt(j: Join, joinA: int, joinB: int) {
    if j.found then joinA == j.a && joinB == j.b else joinA == joinB == -1
  }

  lemma JoinOfIds(pu: seq<Vertex>, pv: seq<Vertex>, joinA: int, joinB: int)
    requires |pu| > 0 && |pv| > 0
    requires var a := FirstShared(Ids(pu), Ids(pv), 0);
      if a < |pu| then joinA == a && joinB == IndexOf(Ids(pv), Ids(pu)[a], 0) else joinA == -1 && joinB == -1
    ensures JoinAt(FindJoin(pu, pv), joinA, joinB)
  {
  }

  method EmitCycle(e: Edge, pathFromU: seq<uint32>, pathFromV: seq<uint32>, joinA: int, joinB: int, ghost arcs: Arcs)
    returns (cycleEdges: seq<Edge>)
    requires pathFromU == Ids(PathU(arcs, e)) && pathFromV == Ids(PathV(arcs, e))
    requires JoinAt(FindJoin(PathU(arcs, e), PathV(arcs, e)), joinA, joinB)
    ensures cycleEdges == Solution(arcs, e)
  {
    cycleEdges := AppendPairs([e], pathFromU, joinA, PathU(arcs, e));
    cycleEdges := AppendPairs(cycleEdges, pathFromV, joinB, PathV(arcs, e));
  }

  lemma StepKnown(s: Search, e: Edge, target: uint32)
    requires Known(s.arcs, e)
    ensures Step(s, e, target) == s
  {
  }

  lemma StepUnknown(s: Search, e: Edge, target: uint32, length: int)
    requires !Known(s.arcs, e)
    requires length == FindJoin(PathU(s.arcs, e), PathV(s.arcs, e)).CycleLength()
    ensures var t := Step(s, e, target);
      && t.arcs == (if length == target then s.arcs else Insert(s.arcs, e))
      && t.solutions == (if length == target then s.solutions + [Solution(s.arcs, e)] else s.solutions)
  {
  }

  // What one edge does to the maps and the solutions.
  method ProcessEdge(graphs: Graphs, e: Edge, targetCycleLength: uint32, solutions: seq<seq<Edge>>, ghost s: Search)
    returns (more: seq<seq<Edge>>)
    requires graphs.Valid() && graphs.arcs == s.arcs && solutions == s.solutions
    modifies graphs
    ensures graphs.Valid() && graphs.arcs == Step(s, e, targetCycleLength).arcs
    ensures more == Step(s, e, targetCycleLength).solutions
  {
    more := solutions;
    KnownIsHeld(graphs.graphU, graphs.graphV, s.arcs, e);
    if e.x in graphs.graphU && graphs.graphU[e.x] == e.y { StepKnown(s, e, targetCycleLength); return; }
    if e.y in graphs.graphV && graphs.graphV[e.y] == e.x { StepKnown(s, e, targetCycleLength); return; }
    var pathFromU := graphs.CreatePath(true, e.x, MAX_PATH_LENGTH);
    var pathFromV := graphs.CreatePath(false, e.y, MAX_PATH_LENGTH);
    var joinA, joinB := JoinPaths(pathFromU, pathFromV);
    JoinOfIds(PathU(s.arcs, e), PathV(s.arcs, e), joinA, joinB);
    var cycleLength := if joinA != -1 then 1 + joinA + joinB else 0;
    StepUnknown(s, e, targetCycleLength, cycleLength);
    if cycleLength == targetCycleLength {
      var cycleEdges := EmitCycle(e, pathFromU, pathFromV, joinA, joinB, s.arcs);
      more := solutions + [cycleEdges];
    } else {
      graphs.InsertEdge(e, pathFromU, pathFromV);
    }
  }

  method FindCycles(trimmedEdges: seq<Edge>, targetCycleLength: uint32) returns (solutions: seq<seq<Edge>>)
    ensures solutions == Run(trimmedEdges, targetCycleLength).solutions
  {
    var graphs := new Graphs();
    solutions := [];
    var edgeIdx := 0;
    while edgeIdx < |trimmedEdges|
      invariant edgeIdx <= |trimmedEdges| && fresh(graphs) && graphs.Valid()
      invariant solutions == Run(trimmedEdges[..edgeIdx], targetCycleLength).solutions
      invariant graphs.arcs == Run(trimmedEdges[..edgeIdx], targetCycleLength).arcs
    {
      var e := trimmedEdges[edgeIdx];
      assert trimmedEdges[..edgeIdx + 1][..edgeIdx] == trimmedEdges[..edgeIdx];
      ghost var s := Run(trimmedEdges[..edgeIdx], targetCycleLength);
      solutions := ProcessEdge(graphs, e, targetCycleLength, solutions, s);
      edgeIdx := edgeIdx + 1;
    }
    assert trimmedEdges[..edgeIdx] == trimmedEdges;
  }
}
