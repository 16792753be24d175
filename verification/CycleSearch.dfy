// What one call of find_cycles does, edge by edge, as functions on the arcs held in
// graph_u and graph_v.

module CycleSearch {
  import opened Sequences
  import opened CycleGraph
  import opened Words

  const MAX_PATH_LENGTH: nat := 8192

  // create_path: follow the arcs from x until there is none, or `cap` vertices are listed.
  function PathFrom(arcs: Arcs, x: Vertex, cap: nat): (p: seq<Vertex>)
    ensures |p| >= 1 && p[0] == x
    decreases cap, x
  {
    if cap <= 1 || x !in arcs then [x] else [x] + PathFrom(arcs, arcs[x], cap - 1)
  }

  predicate IsArc(arcs: Arcs, x: Vertex, y: Vertex) {
    x in arcs && arcs[x] == y
  }

  // Each vertex of p but the last has an arc to the next.
  ghost predicate FollowsArcs(arcs: Arcs, p: seq<Vertex>) {
    forall i :: 0 < i < |p| ==> IsArc(arcs, p[i - 1], p[i])
  }

  // reverse_path, the steps at indices n-1, ..., 0.
  function ReverseArcs(arcs: Arcs, p: seq<Vertex>, n: nat): Arcs
    requires n < |p|
    decreases n
  {
    if n == 0 then arcs else ReverseArcs((arcs - {p[n - 1]})[p[n] := p[n - 1]], p, n - 1)
  }

  function Ids(p: seq<Vertex>): (s: seq<uint32>)
    ensures |s| == |p| && forall i :: 0 <= i < |p| ==> s[i] == p[i].id
  {
    seq(|p|, i requires 0 <= i < |p| => p[i].id)
  }

  // std::find: the first index at or after `from` holding x, |s| when there is none.
  function IndexOf(s: seq<uint32>, x: uint32, from: nat): (k: nat)
    requires from <= |s|
    ensures from <= k <= |s|
    ensures forall i :: from <= i < k ==> s[i] != x
    ensures k < |s| ==> s[k] == x
    decreases |s| - from
  {
    if from == |s| || s[from] == x then from else IndexOf(s, x, from + 1)
  }

  // The first index at or after `from` of an id of a that occurs in b, |a| when there is none.
  function FirstShared(a: seq<uint32>, b: seq<uint32>, from: nat): (k: nat)
    requires from <= |a|
    ensures from <= k <= |a|
    ensures forall i :: from <= i < k ==> a[i] !in b
    ensures k < |a| ==> a[k] in b
    decreases |a| - from
  {
    if from == |a| || a[from] in b then from else FirstShared(a, b, from + 1)
  }

  // The pairs of neighbours on the first n + 1 vertices of a path, later vertex first.
  function PathPairs(p: seq<Vertex>, n: nat): (s: seq<Edge>)
    requires n < |p|
    ensures |s| == n && forall i :: 0 <= i < n ==> s[i] == Edge(p[i + 1].id, p[i].id)
  {
    seq(n, i requires 0 <= i < n => Edge(p[i + 1].id, p[i].id))
  }

  datatype Join = Join(found: bool, a: nat, b: nat) {
    function CycleLength(): nat { if found then 1 + a + b else 0 }
  }

  // Path nodes are compared as bare ids.
  function FindJoin(pu: seq<Vertex>, pv: seq<Vertex>): (j: Join)
    requires |pu| > 0 && |pv| > 0
    ensures j.a < |pu| && j.b < |pv|
    ensures j.found ==> pu[j.a].id == pv[j.b].id
    ensures j.found ==> forall i, k :: 0 <= i < j.a && 0 <= k < |pv| ==> pu[i].id != pv[k].id
    ensures j.found ==> forall k :: 0 <= k < j.b ==> pv[k].id != pv[j.b].id
    ensures !j.found ==> forall i, k :: 0 <= i < |pu| && 0 <= k < |pv| ==> pu[i].id != pv[k].id
    ensures !j.found ==> j.a == 0 && j.b == 0
  {
    var a := FirstShared(Ids(pu), Ids(pv), 0);
    assert forall k :: 0 <= k < |pv| ==> Ids(pv)[k] in Ids(pv);
    if a < |pu| then Join(true, a, IndexOf(Ids(pv), pu[a].id, 0)) else Join(false, 0, 0)
  }

  // The search after some edges. `accepted` and `offTarget` are history: the edges the
  // insert branch was run for, and whether it was run for one that closed a cycle.
  datatype Search = Search(
    arcs: Arcs,
    solutions: seq<seq<Edge>>,
    accepted: seq<Edge>,
    offTarget: bool)

  const EMPTY_SEARCH := Search(map[], [], [], false)

  predicate Known(arcs: Arcs, e: Edge) {
    IsArc(arcs, Left(e.x), Right(e.y)) || IsArc(arcs, Right(e.y), Left(e.x))
  }

  function PathU(arcs: Arcs, e: Edge): (p: seq<Vertex>)
    ensures |p| >= 1 && p[0] == Left(e.x)
  {
    PathFrom(arcs, Left(e.x), MAX_PATH_LENGTH)
  }

  function PathV(arcs: Arcs, e: Edge): (p: seq<Vertex>)
    ensures |p| >= 1 && p[0] == Right(e.y)
  {
    PathFrom(arcs, Right(e.y), MAX_PATH_LENGTH)
  }

  function Insert(arcs: Arcs, e: Edge): Arcs {
    var pu, pv := PathU(arcs, e), PathV(arcs, e);
    if |pu| > |pv| then
      ReverseArcs(arcs, pv, |pv| - 1)[Right(e.y) := Left(e.x)]
    else
      ReverseArcs(arcs, pu, |pu| - 1)[Left(e.x) := Right(e.y)]
  }

  function Solution(arcs: Arcs, e: Edge): (s: seq<Edge>) {
    var pu, pv := PathU(arcs, e), PathV(arcs, e);
    var j := FindJoin(pu, pv);
    [e] + PathPairs(pu, j.a) + PathPairs(pv, j.b)
  }

  function Step(s: Search, e: Edge, target: uint32): Search {
    if Known(s.arcs, e) then s else
    var j := FindJoin(PathU(s.arcs, e), PathV(s.arcs, e));
    if j.CycleLength() == target then
      s.(solutions := s.solutions + [Solution(s.arcs, e)])
    else
      s.(arcs := Insert(s.arcs, e), accepted := s.accepted + [e], offTarget := s.offTarget || j.found)
  }

  function Run(edges: seq<Edge>, target: uint32): Search {
    if |edges| == 0 then EMPTY_SEARCH
    else Step(Run(edges[..|edges| - 1], target), edges[|edges| - 1], target)
  }

  lemma RunOneMore(edges: seq<Edge>, e: Edge, target: uint32)
    ensures Run(edges + [e], target) == Step(Run(edges, target), e, target)
  {
    assert (edges + [e])[..|edges|] == edges;
  }
}
