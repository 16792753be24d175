// The comment above find_cycles promises all cycles of the target length. Two left and three
// right vertices, all joined, show that it is not kept: three cycles of length four, of which
// two are emitted.

module CycleMissed {
  import opened Sequences
  import opened CycleGraph
  import opened CycleSearch
  import opened Words

  const EDGES: seq<Edge> := [Edge(0, 10), Edge(1, 10), Edge(0, 11), Edge(1, 11), Edge(0, 12), Edge(1, 12)]

  const FIRST: seq<Edge> := [Edge(1, 11), Edge(10, 1), Edge(0, 11), Edge(10, 0)]

  const SECOND: seq<Edge> := [Edge(1, 12), Edge(10, 1), Edge(0, 12), Edge(10, 0)]

  const MISSED: seq<Vertex> := [Left(0), Right(11), Left(1), Right(12)]

  lemma PathStops(arcs: Arcs, x: Vertex, cap: nat)
    requires x !in arcs
    ensures PathFrom(arcs, x, cap) == [x]
  {
  }

  lemma PathGoesOn(arcs: Arcs, x: Vertex, cap: nat)
    requires cap > 1 && x in arcs
    ensures PathFrom(arcs, x, cap) == [x] + PathFrom(arcs, arcs[x], cap - 1)
  {
  }

  // A new edge between two roots.
  lemma JoinRoots(s: Search, e: Edge)
    requires Left(e.x) !in s.arcs && Right(e.y) !in s.arcs && e.x != e.y
    ensures Step(s, e, 4) == s.(arcs := s.arcs[Left(e.x) := Right(e.y)], accepted := s.accepted + [e])
  {
    PathStops(s.arcs, Left(e.x), MAX_PATH_LENGTH);
    PathStops(s.arcs, Right(e.y), MAX_PATH_LENGTH);
  }

  // A new right vertex below a left vertex that hangs from the root.
  lemma JoinBelow(s: Search, e: Edge, root: Vertex)
    requires Left(e.x) in s.arcs && s.arcs[Left(e.x)] == root && root !in s.arcs && Right(e.y) !in s.arcs
    requires e.x != e.y && root != Right(e.y) && root.id != e.y
    ensures Step(s, e, 4) == s.(arcs := s.arcs[Right(e.y) := Left(e.x)], accepted := s.accepted + [e])
  {
    PathGoesOn(s.arcs, Left(e.x), MAX_PATH_LENGTH);
    PathStops(s.arcs, root, MAX_PATH_LENGTH - 1);
    PathStops(s.arcs, Right(e.y), MAX_PATH_LENGTH);
    var pu, pv := PathU(s.arcs, e), PathV(s.arcs, e);
    assert pu == [Left(e.x), root] && pv == [Right(e.y)];
  }

  // An edge that closes a cycle of four over the root.
  lemma Close(s: Search, e: Edge, x: uint32, root: Vertex)
    requires Left(e.x) in s.arcs && s.arcs[Left(e.x)] == root && root !in s.arcs
    requires Right(e.y) in s.arcs && s.arcs[Right(e.y)] == Left(x)
    requires Left(x) in s.arcs && s.arcs[Left(x)] == root
    requires e.x != x && e.x != e.y && root.id != e.x && root.id != e.y && root.id != x && root != Right(e.y)
    ensures Step(s, e, 4) == s.(solutions := s.solutions
      + [[e, Edge(root.id, e.x), Edge(x, e.y), Edge(root.id, x)]])
  {
    PathGoesOn(s.arcs, Left(e.x), MAX_PATH_LENGTH);
    PathStops(s.arcs, root, MAX_PATH_LENGTH - 1);
    PathGoesOn(s.arcs, Right(e.y), MAX_PATH_LENGTH);
    PathGoesOn(s.arcs, Left(x), MAX_PATH_LENGTH - 1);
    PathStops(s.arcs, root, MAX_PATH_LENGTH - 2);
    var pu, pv := PathU(s.arcs, e), PathV(s.arcs, e);
    assert pu == [Left(e.x), root] && pv == [Right(e.y), Left(x), root];
    var j := FindJoin(pu, pv);
    assert pu[1].id == pv[2].id;
    assert j == Join(true, 1, 2);
    assert PathPairs(pu, 1) == [Edge(root.id, e.x)];
    assert PathPairs(pv, 2) == [Edge(x, e.y), Edge(root.id, x)];
    assert Solution(s.arcs, e) == [e, Edge(root.id, e.x), Edge(x, e.y), Edge(root.id, x)];
  }

  function After2(): Search {
    Search(map[Left(0) := Right(10), Left(1) := Right(10)], [], [Edge(0, 10), Edge(1, 10)], false)
  }

  function After3(): Search {
    After2().(arcs := After2().arcs[Right(11) := Left(0)], accepted := After2().accepted + [Edge(0, 11)])
  }

  function After4(): Search {
    After3().(solutions := [FIRST])
  }

  function After5(): Search {
    After4().(arcs := After4().arcs[Right(12) := Left(0)], accepted := After4().accepted + [Edge(0, 12)])
  }

  lemma FirstTwo()
    ensures Step(Step(EMPTY_SEARCH, Edge(0, 10), 4), Edge(1, 10), 4) == After2()
  {
    JoinRoots(EMPTY_SEARCH, Edge(0, 10));
    JoinRoots(Step(EMPTY_SEARCH, Edge(0, 10), 4), Edge(1, 10));
  }

  lemma Third()
    ensures Step(After2(), Edge(0, 11), 4) == After3()
  {
    JoinBelow(After2(), Edge(0, 11), Right(10));
  }

  lemma Fourth()
    ensures Step(After3(), Edge(1, 11), 4) == After4()
  {
    Close(After3(), Edge(1, 11), 0, Right(10));
  }

  lemma Fifth()
    ensures Step(After4(), Edge(0, 12), 4) == After5()
  {
    JoinBelow(After4(), Edge(0, 12), Right(10));
  }

  lemma Sixth()
    ensures Step(After5(), Edge(1, 12), 4).solutions == [FIRST, SECOND]
  {
    Close(After5(), Edge(1, 12), 0, Right(10));
  }

  lemma RunPrefix(edges: seq<Edge>, n: nat)
    requires n < |edges|
    ensures Run(edges[..n + 1], 4) == Step(Run(edges[..n], 4), edges[n], 4)
  {
    assert edges[..n + 1] == edges[..n] + [edges[n]];
    RunOneMore(edges[..n], edges[n], 4);
  }

  lemma RunToSecond()
    ensures Run(EDGES[..2], 4) == After2()
  {
    RunPrefix(EDGES, 0);
    RunPrefix(EDGES, 1);
    FirstTwo();
  }

  lemma RunToFourth()
    ensures Run(EDGES[..4], 4) == After4()
  {
    RunToSecond();
    RunPrefix(EDGES, 2);
    RunPrefix(EDGES, 3);
    Third();
    Fourth();
  }

  lemma TwoEmitted()
    ensures Run(EDGES, 4).solutions == [FIRST, SECOND]
  {
    RunToFourth();
    RunPrefix(EDGES, 4);
    RunPrefix(EDGES, 5);
    Fifth();
    Sixth();
    assert EDGES[..6] == EDGES;
  }

  // A list with an edge at vertex 10 does not tour the missed cycle.
  lemma NotATour(found: seq<Edge>, ordered: seq<Edge>)
    requires Edge(10, 1) in found
    ensures !Tours(found, ordered, MISSED)
  {
    assert Edge(10, 1) in multiset(found);
  }

  lemma MissedIsACycle()
    ensures SimpleCycle(EDGES, MISSED) && |MISSED| == 4
  {
    assert EDGES[2] in EDGES && EDGES[3] in EDGES && EDGES[4] in EDGES && EDGES[5] in EDGES;
  }

  // A cycle of the target length that no emitted list tours.
  lemma OneMissed()
    ensures SimpleCycle(EDGES, MISSED) && |MISSED| == 4
    ensures forall found, ordered :: found in Run(EDGES, 4).solutions ==> !Tours(found, ordered, MISSED)
  {
    MissedIsACycle();
    TwoEmitted();
    forall found, ordered | found in Run(EDGES, 4).solutions
      ensures !Tours(found, ordered, MISSED)
    {
      assert found[1] == Edge(10, 1);
      NotATour(found, ordered);
    }
  }
}
