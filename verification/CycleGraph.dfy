// The graph the cycle finder of c29.cpp works on: a bipartite multigraph given as a list of
// edges (x, y) between a left vertex x and a right vertex y, and a map of arcs that hangs
// some of its vertices below others.

module CycleGraph {
  import opened Sequences
  import opened Words

  // sycl::uint2: x() is the id on the left side, y() the id on the right side.
  datatype Edge = Edge(x: uint32, y: uint32)

  // A vertex is an id together with its side; the same id may occur on both sides.
  datatype Vertex = Left(id: uint32) | Right(id: uint32)

  // graph_u and graph_v together: graph_u[a] == b is the arc Left(a) -> Right(b),
  // graph_v[b] == a is the arc Right(b) -> Left(a).
  type Arcs = map<Vertex, Vertex>

  ghost predicate Linked(edges: seq<Edge>, a: Vertex, b: Vertex) {
    match (a, b)
    case (Left(x), Right(y)) => Edge(x, y) in edges
    case (Right(y), Left(x)) => Edge(x, y) in edges
    case _ => false
  }

  // The edge between two vertices on different sides.
  function EdgeOf(a: Vertex, b: Vertex): Edge {
    if a.Left? then Edge(a.id, b.id) else Edge(b.id, a.id)
  }

  function After(c: seq<Vertex>, i: nat): Vertex
    requires i < |c|
  {
    c[if i + 1 == |c| then 0 else i + 1]
  }

  // A simple cycle of the graph, given by its vertices in order.
  ghost predicate SimpleCycle(edges: seq<Edge>, c: seq<Vertex>) {
    && |c| >= 3
    && Distinct(c)
    && forall i :: 0 <= i < |c| ==> Linked(edges, c[i], After(c, i))
  }

  // An emitted pair carries no sides: it names the edge in one of its two orientations.
  ghost predicate Names(e: Edge, a: Vertex, b: Vertex) {
    (e.x == a.id && e.y == b.id) || (e.x == b.id && e.y == a.id)
  }

  // The pairs `found`, in some order, are exactly the edges met on one tour of the cycle c.
  ghost predicate Tours(found: seq<Edge>, ordered: seq<Edge>, c: seq<Vertex>) {
    && |ordered| == |c|
    && multiset(ordered) == multiset(found)
    && forall i :: 0 <= i < |c| ==> Names(ordered[i], c[i], After(c, i))
  }

  ghost predicate IsCycleOf(edges: seq<Edge>, found: seq<Edge>) {
    exists c, ordered :: SimpleCycle(edges, c) && Tours(found, ordered, c)
  }

  // ---- walks in the undirected graph ----

  ghost predicate IsWalk(edges: seq<Edge>, w: seq<Vertex>) {
    && |w| > 0
    && forall i :: 0 < i < |w| ==> Linked(edges, w[i - 1], w[i])
  }

  ghost predicate Connected(edges: seq<Edge>, a: Vertex, b: Vertex) {
    exists w :: IsWalk(edges, w) && w[0] == a && w[|w| - 1] == b
  }

  lemma {:induction false} SidesAlternate(edges: seq<Edge>, c: seq<Vertex>, i: nat)
    requires i < |c|
    requires forall k :: 0 < k < |c| ==> Linked(edges, c[k - 1], c[k])
    ensures c[i].Left? == (c[0].Left? == (i % 2 == 0))
  {
    if i > 0 {
      SidesAlternate(edges, c, i - 1);
    }
  }

  // Every cycle of a bipartite graph is even and has at least four edges.
  lemma CyclesAreEven(edges: seq<Edge>, c: seq<Vertex>)
    requires SimpleCycle(edges, c)
    ensures |c| % 2 == 0 && |c| >= 4
  {
    forall k | 0 < k < |c|
      ensures Linked(edges, c[k - 1], c[k])
    {
      assert After(c, k - 1) == c[k];
    }
    SidesAlternate(edges, c, |c| - 1);
    assert After(c, |c| - 1) == c[0];
  }

  lemma FoundCyclesAreEven(edges: seq<Edge>, found: seq<Edge>)
    requires IsCycleOf(edges, found)
    ensures |found| % 2 == 0 && |found| >= 4
  {
    var c, ordered :| SimpleCycle(edges, c) && Tours(found, ordered, c);
    CyclesAreEven(edges, c);
    assert |multiset(ordered)| == |ordered|;
    assert |multiset(found)| == |found|;
  }

  lemma MoreEdgesKeepCycles(edges: seq<Edge>, more: seq<Edge>, c: seq<Vertex>)
    requires forall e :: e in edges ==> e in more
    requires SimpleCycle(edges, c)
    ensures SimpleCycle(more, c)
  {
    forall i | 0 <= i < |c|
      ensures Linked(more, c[i], After(c, i))
    {
      assert Linked(edges, c[i], After(c, i));
    }
  }

  lemma MoreEdgesKeepFound(edges: seq<Edge>, more: seq<Edge>, found: seq<Edge>)
    requires forall e :: e in edges ==> e in more
    requires IsCycleOf(edges, found)
    ensures IsCycleOf(more, found)
  {
    var c, ordered :| SimpleCycle(edges, c) && Tours(found, ordered, c);
    MoreEdgesKeepCycles(edges, more, c);
  }
}
