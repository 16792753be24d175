// Which cycles of the target length find_cycles emits: not all of them, but exactly those
// whose edges, except the last one met, each join two parts of the graph that the edges
// before it left apart.

module CycleEmission {
  import opened Sequences
  import opened CycleGraph
  import opened CycleSearch
  import opened CycleSoundness
  import opened CycleForest
  import opened CycleCompleteness
  import opened Words

  // The run closes no cycle of another length, on input the completeness result covers.
  ghost predicate OnTarget(edges: seq<Edge>, target: uint32) {
    DisjointSides(edges) && |edges| < MAX_PATH_LENGTH && target > 0 && !Run(edges, target).offTarget
  }

  // Some copy of the edge joins what the edges before it leave apart.
  ghost predicate JoinsParts(edges: seq<Edge>, f: Edge) {
    exists k :: 0 <= k < |edges| && edges[k] == f && !Connected(edges[..k], Left(f.x), Right(f.y))
  }

  // ---- connection ----

  lemma MoreEdgesConnect(edges: seq<Edge>, more: seq<Edge>, a: Vertex, b: Vertex)
    requires Connected(edges, a, b) && forall f :: f in edges ==> f in more
    ensures Connected(more, a, b)
  {
    var w :| IsWalk(edges, w) && w[0] == a && w[|w| - 1] == b;
    assert forall i :: 0 < i < |w| ==> Linked(more, w[i - 1], w[i]);
    assert IsWalk(more, w);
  }

  lemma LinkConnects(edges: seq<Edge>, a: Vertex, b: Vertex)
    requires Linked(edges, a, b)
    ensures Connected(edges, a, b)
  {
    assert IsWalk(edges, [a, b]);
  }

  lemma ConnectedBack(edges: seq<Edge>, a: Vertex, b: Vertex)
    requires Connected(edges, a, b)
    ensures Connected(edges, b, a)
  {
    var w :| IsWalk(edges, w) && w[0] == a && w[|w| - 1] == b;
    var r := Reversed(w);
    forall i | 0 < i < |r|
      ensures Linked(edges, r[i - 1], r[i])
    {
      assert Linked(edges, w[|w| - i - 1], w[|w| - i]);
    }
    assert IsWalk(edges, r);
  }

  lemma ConnectedOn(edges: seq<Edge>, a: Vertex, b: Vertex, c: Vertex)
    requires Connected(edges, a, b) && Connected(edges, b, c)
    ensures Connected(edges, a, c)
  {
    var v :| IsWalk(edges, v) && v[0] == a && v[|v| - 1] == b;
    var w :| IsWalk(edges, w) && w[0] == b && w[|w| - 1] == c;
    var both := v + w[1..];
    forall i | 0 < i < |both|
      ensures Linked(edges, both[i - 1], both[i])
    {
      if i >= |v| {
        assert both[i] == w[i - |v| + 1] && both[i - 1] == w[i - |v|];
      }
    }
    assert IsWalk(edges, both);
  }

  // ---- the states of a run ----

  ghost predicate Closing(s: Search, e: Edge) {
    e !in s.accepted && Connected(s.accepted, Left(e.x), Right(e.y))
  }

  ghost predicate Joining(s: Search, e: Edge) {
    e !in s.accepted && !Connected(s.accepted, Left(e.x), Right(e.y))
  }

  // The edge is known, or closes a cycle and is emitted with it, or joins and is accepted.
  ghost predicate Follows(s: Search, e: Edge, next: Search) {
    && next.accepted == (if Joining(s, e) then s.accepted + [e] else s.accepted)
    && next.solutions == (if Closing(s, e) then s.solutions + [Solution(s.arcs, e)] else s.solutions)
  }

  // A forest with two good paths from the ends of an edge.
  ghost predicate ReadyFor(s: Search, e: Edge) {
    && IsForestOf(s.arcs, s.accepted)
    && GoodPaths(s.arcs, PathU(s.arcs, e), PathV(s.arcs, e))
  }

  ghost predicate StepAt(edges: seq<Edge>, h: seq<Search>, k: nat)
    requires |h| == |edges| + 1 && k < |edges|
  {
    Follows(h[k], edges[k], h[k + 1])
  }

  ghost predicate ReadyAt(edges: seq<Edge>, h: seq<Search>, k: nat)
    requires |h| == |edges| + 1 && k < |edges|
  {
    ReadyFor(h[k], edges[k])
  }

  // What the run held before each edge, and at its end.
  ghost predicate History(edges: seq<Edge>, h: seq<Search>) {
    && |h| == |edges| + 1
    && h[0] == EMPTY_SEARCH
    && (forall k :: 0 <= k < |edges| ==> ReadyAt(edges, h, k))
    && (forall k :: 0 <= k < |edges| ==> StepAt(edges, h, k))
  }

  function States(edges: seq<Edge>, target: uint32): (h: seq<Search>)
    ensures |h| == |edges| + 1 && forall k :: 0 <= k <= |edges| ==> h[k] == Run(edges[..k], target)
  {
    seq(|edges| + 1, k requires 0 <= k <= |edges| => Run(edges[..k], target))
  }

  lemma {:induction false} PrefixOnTarget(edges: seq<Edge>, target: uint32, k: nat)
    requires OnTarget(edges, target) && k <= |edges|
    ensures OnTarget(edges[..k], target)
    decreases |edges|
  {
    if k == |edges| {
      assert edges[..k] == edges;
    } else {
      var before := edges[..|edges| - 1];
      assert before[..k] == edges[..k];
      PrefixOnTarget(before, target, k);
    }
  }

  lemma ForestAt(edges: seq<Edge>, target: uint32, k: nat)
    requires OnTarget(edges, target) && k < |edges|
    ensures ReadyFor(Run(edges[..k], target), edges[k])
  {
    PrefixOnTarget(edges, target, k);
    RunKeepsForest(edges[..k], target);
    var s := Run(edges[..k], target);
    PathsAreGood(s.arcs, s.accepted, edges, edges[k]);
  }

  lemma StepFollows(s: Search, edges: seq<Edge>, e: Edge, target: uint32)
    requires IsForestOf(s.arcs, s.accepted) && |s.arcs| + 1 < MAX_PATH_LENGTH && target > 0
    requires DisjointSides(edges) && e in edges && forall f :: f in s.accepted ==> f in edges
    requires !Step(s, e, target).offTarget
    ensures Follows(s, e, Step(s, e, target))
  {
    StepFromForest(s.arcs, s.accepted, edges, e);
  }

  lemma AtStep(edges: seq<Edge>, target: uint32, k: nat)
    requires OnTarget(edges, target) && k < |edges|
    ensures Follows(Run(edges[..k], target), edges[k], Run(edges[..k + 1], target))
  {
    PrefixOnTarget(edges, target, k);
    PrefixOnTarget(edges, target, k + 1);
    RunKeepsForest(edges[..k], target);
    assert edges[..k + 1][..k] == edges[..k];
    assert Run(edges[..k + 1], target) == Step(Run(edges[..k], target), edges[k], target);
    StepFollows(Run(edges[..k], target), edges, edges[k], target);
  }

  lemma StatesAreHistory(edges: seq<Edge>, target: uint32)
    requires OnTarget(edges, target)
    ensures History(edges, States(edges, target))
  {
    forall k | 0 <= k < |edges|
      ensures ReadyAt(edges, States(edges, target), k) && StepAt(edges, States(edges, target), k)
    {
      ForestAt(edges, target, k);
      AtStep(edges, target, k);
    }
  }

  lemma {:induction false} HistoryGrows(edges: seq<Edge>, h: seq<Search>, i: nat, k: nat)
    requires History(edges, h) && i <= k <= |edges|
    ensures forall f :: f in h[i].accepted ==> f in h[k].accepted
    ensures forall s :: s in h[i].solutions ==> s in h[k].solutions
    decreases k
  {
    if i < k {
      HistoryGrows(edges, h, i, k - 1);
      assert StepAt(edges, h, k - 1);
    }
  }

  // ---- the accepted edges connect what all edges seen connect ----

  lemma {:induction false} AcceptedWereSeen(edges: seq<Edge>, h: seq<Search>, k: nat)
    requires History(edges, h) && k <= |edges|
    ensures forall f :: f in h[k].accepted ==> f in edges[..k]
    decreases k
  {
    if k > 0 {
      AcceptedWereSeen(edges, h, k - 1);
      assert StepAt(edges, h, k - 1);
      assert edges[..k] == edges[..k - 1] + [edges[k - 1]];
    }
  }

  lemma SeenIsConnected(edges: seq<Edge>, h: seq<Search>, i: nat, k: nat)
    requires History(edges, h) && i < k <= |edges|
    ensures Connected(h[k].accepted, Left(edges[i].x), Right(edges[i].y))
  {
    var f := edges[i];
    assert StepAt(edges, h, i);
    if f in h[i + 1].accepted {
      LinkConnects(h[i + 1].accepted, Left(f.x), Right(f.y));
    }
    HistoryGrows(edges, h, i + 1, k);
    MoreEdgesConnect(h[i + 1].accepted, h[k].accepted, Left(f.x), Right(f.y));
  }

  lemma {:induction false} WalkIsConnected(edges: seq<Edge>, h: seq<Search>, k: nat, w: seq<Vertex>)
    requires History(edges, h) && k <= |edges| && IsWalk(edges[..k], w)
    ensures Connected(h[k].accepted, w[0], w[|w| - 1])
    decreases |w|
  {
    var n := |w| - 1;
    if n == 0 {
      assert IsWalk(h[k].accepted, w);
    } else {
      WalkIsConnected(edges, h, k, w[..n]);
      assert Linked(edges[..k], w[n - 1], w[n]);
      var f := EdgeOf(w[n - 1], w[n]);
      var i :| 0 <= i < k && edges[..k][i] == f;
      SeenIsConnected(edges, h, i, k);
      if w[n].Left? {
        ConnectedBack(h[k].accepted, w[n], w[n - 1]);
      }
      ConnectedOn(h[k].accepted, w[0], w[n - 1], w[n]);
    }
  }

  lemma SameConnections(edges: seq<Edge>, h: seq<Search>, k: nat, a: Vertex, b: Vertex)
    requires History(edges, h) && k <= |edges|
    ensures Connected(h[k].accepted, a, b) <==> Connected(edges[..k], a, b)
  {
    if Connected(edges[..k], a, b) {
      var w :| IsWalk(edges[..k], w) && w[0] == a && w[|w| - 1] == b;
      WalkIsConnected(edges, h, k, w);
    } else if Connected(h[k].accepted, a, b) {
      AcceptedWereSeen(edges, h, k);
      MoreEdgesConnect(h[k].accepted, edges[..k], a, b);
    }
  }

  // ---- accepted edges, closing edges and emitted lists ----

  ghost predicate JoinsPartsBefore(edges: seq<Edge>, f: Edge, k: nat)
    requires k <= |edges|
  {
    exists i :: 0 <= i < k && edges[i] == f && !Connected(edges[..i], Left(f.x), Right(f.y))
  }

  lemma {:induction false} AcceptedBy(edges: seq<Edge>, h: seq<Search>, f: Edge, k: nat)
    requires History(edges, h) && k <= |edges|
    ensures f in h[k].accepted <==> JoinsPartsBefore(edges, f, k)
    decreases k
  {
    if k > 0 {
      var e := edges[k - 1];
      AcceptedBy(edges, h, f, k - 1);
      SameConnections(edges, h, k - 1, Left(e.x), Right(e.y));
      assert StepAt(edges, h, k - 1);
      if e in h[k - 1].accepted {
        LinkConnects(h[k - 1].accepted, Left(e.x), Right(e.y));
      }
    }
  }

  // An edge is accepted iff it joins what was apart: the accepted edges are those Kruskal's
  // algorithm keeps.
  lemma AcceptedIffJoins(edges: seq<Edge>, target: uint32, f: Edge)
    requires OnTarget(edges, target)
    ensures f in Run(edges, target).accepted <==> JoinsParts(edges, f)
  {
    StatesAreHistory(edges, target);
    AcceptedBy(edges, States(edges, target), f, |edges|);
    assert edges[..|edges|] == edges;
  }

  lemma NewlyEmitted(s: Search, e: Edge, next: Search, x: seq<Edge>)
    requires Follows(s, e, next) && x in next.solutions && x !in s.solutions
    ensures Closing(s, e) && x == Solution(s.arcs, e)
  {
  }

  lemma {:induction false} WhereEmitted(edges: seq<Edge>, h: seq<Search>, s: seq<Edge>, n: nat) returns (k: nat)
    requires History(edges, h) && n <= |edges| && s in h[n].solutions
    ensures k < n && Closing(h[k], edges[k]) && s == Solution(h[k].arcs, edges[k])
    decreases n
  {
    assert n > 0;
    assert StepAt(edges, h, n - 1);
    if s in h[n - 1].solutions {
      k := WhereEmitted(edges, h, s, n - 1);
    } else {
      k := n - 1;
      NewlyEmitted(h[k], edges[k], h[n], s);
    }
  }

  // An edge that closes a cycle is never accepted.
  lemma {:induction false} StaysOut(edges: seq<Edge>, h: seq<Search>, e: Edge, k: nat, n: nat)
    requires History(edges, h) && k <= n <= |edges| && Closing(h[k], e)
    ensures Closing(h[n], e)
    decreases n
  {
    if k < n {
      StaysOut(edges, h, e, k, n - 1);
      assert StepAt(edges, h, n - 1);
      MoreEdgesConnect(h[n - 1].accepted, h[n].accepted, Left(e.x), Right(e.y));
    }
  }

  // An edge not accepted closed a cycle when it was met.
  lemma OutWasClosing(edges: seq<Edge>, h: seq<Search>, k: nat)
    requires History(edges, h) && k < |edges| && edges[k] !in h[|edges|].accepted
    ensures Closing(h[k], edges[k]) && Solution(h[k].arcs, edges[k]) in h[|edges|].solutions
  {
    assert StepAt(edges, h, k);
    HistoryGrows(edges, h, k, |edges|);
    HistoryGrows(edges, h, k + 1, |edges|);
  }
}
