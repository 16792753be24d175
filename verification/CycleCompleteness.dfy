// When no id occurs on both sides and there are fewer than 8192 edges, the search keeps a
// rooted forest of the accepted edges until it closes a cycle of another length, and then
// an edge closes a cycle exactly when the join says so, with the length it says.

module CycleCompleteness {
  import opened Sequences
  import opened CycleGraph
  import opened CycleSearch
  import opened CycleSoundness
  import opened CycleForest
  import opened Words

  ghost predicate DisjointSides(edges: seq<Edge>) {
    forall e, f :: e in edges && f in edges ==> e.x != f.y
  }

  ghost predicate IsForestOf(arcs: Arcs, accepted: seq<Edge>) {
    && Acyclic(arcs)
    && |arcs| == |accepted|
    && forall a, b :: Adjacent(arcs, a, b) <==> Linked(accepted, a, b)
  }

  ghost predicate HasCycle(edges: seq<Edge>) {
    exists c :: SimpleCycle(edges, c)
  }

  // ---- a found join is a common vertex ----

  ghost predicate Occurs(edges: seq<Edge>, x: Vertex) {
    exists e :: e in edges && (if x.Left? then e.x == x.id else e.y == x.id)
  }

  lemma PathOccurs(arcs: Arcs, edges: seq<Edge>, p: seq<Vertex>, i: nat)
    requires FromEdges(arcs, edges) && FollowsArcs(arcs, p) && i < |p| && Occurs(edges, p[0])
    ensures Occurs(edges, p[i])
  {
    if i > 0 {
      assert IsArc(arcs, p[i - 1], p[i]);
      assert Linked(edges, p[i - 1], p[i]);
    }
  }

  // The facts about the two paths of one edge that the rest builds on.
  ghost predicate GoodPaths(arcs: Arcs, pu: seq<Vertex>, pv: seq<Vertex>) {
    && |pu| > 0 && FollowsArcs(arcs, pu) && Distinct(pu) && pu[|pu| - 1] !in arcs
    && |pv| > 0 && FollowsArcs(arcs, pv) && Distinct(pv) && pv[|pv| - 1] !in arcs
    && (forall i, k :: 0 <= i < |pu| && 0 <= k < |pv| && pu[i].id == pv[k].id ==> pu[i] == pv[k])
  }

  lemma PathsAreGood(arcs: Arcs, accepted: seq<Edge>, edges: seq<Edge>, e: Edge)
    requires IsForestOf(arcs, accepted) && |arcs| + 1 < MAX_PATH_LENGTH
    requires DisjointSides(edges) && e in edges && forall f :: f in accepted ==> f in edges
    ensures GoodPaths(arcs, PathU(arcs, e), PathV(arcs, e))
    ensures |PathU(arcs, e)| < MAX_PATH_LENGTH && |PathV(arcs, e)| < MAX_PATH_LENGTH
  {
    var pu, pv := PathU(arcs, e), PathV(arcs, e);
    PathEndsAtRoot(arcs, Left(e.x), MAX_PATH_LENGTH);
    PathEndsAtRoot(arcs, Right(e.y), MAX_PATH_LENGTH);
    assert FromEdges(arcs, edges) by {
      forall x | x in arcs
        ensures Linked(edges, x, arcs[x])
      {
        assert Adjacent(arcs, x, arcs[x]);
        assert Linked(accepted, x, arcs[x]);
      }
    }
    forall i, k | 0 <= i < |pu| && 0 <= k < |pv| && pu[i].id == pv[k].id
      ensures pu[i] == pv[k]
    {
      PathOccurs(arcs, edges, pu, i);
      PathOccurs(arcs, edges, pv, k);
    }
  }

  // ---- a join is found iff the endpoints are already connected ----

  lemma MeetingPathsConnect(arcs: Arcs, accepted: seq<Edge>, pu: seq<Vertex>, pv: seq<Vertex>, a: nat, b: nat)
    requires IsForestOf(arcs, accepted)
    requires FollowsArcs(arcs, pu) && FollowsArcs(arcs, pv)
    requires a < |pu| && b < |pv| && pu[a] == pv[b]
    ensures Connected(accepted, pu[0], pv[0])
  {
    var w := pu[..a + 1] + Reversed(pv[..b]);
    forall i | 0 < i < |w|
      ensures Linked(accepted, w[i - 1], w[i])
    {
      if i <= a {
        assert IsArc(arcs, pu[i - 1], pu[i]);
      } else {
        var k := b - (i - a);
        assert w[i] == pv[k] && w[i - 1] == pv[k + 1];
        assert IsArc(arcs, pv[k + 1 - 1], pv[k + 1]);
      }
      assert Adjacent(arcs, w[i - 1], w[i]);
    }
    assert IsWalk(accepted, w);
  }

  lemma {:induction false} WalkKeepsRoot(arcs: Arcs, rank: Vertex -> nat, edges: seq<Edge>, w: seq<Vertex>, i: nat)
    requires Ranks(arcs, rank)
    requires forall a, b :: Linked(edges, a, b) ==> Adjacent(arcs, a, b)
    requires IsWalk(edges, w) && i < |w|
    ensures RootOf(arcs, rank, w[i]) == RootOf(arcs, rank, w[0])
  {
    if i > 0 {
      WalkKeepsRoot(arcs, rank, edges, w, i - 1);
      assert Linked(edges, w[i - 1], w[i]);
    }
  }

  lemma JoinIffConnected(arcs: Arcs, accepted: seq<Edge>, e: Edge)
    requires IsForestOf(arcs, accepted) && GoodPaths(arcs, PathU(arcs, e), PathV(arcs, e))
    ensures FindJoin(PathU(arcs, e), PathV(arcs, e)).found
      <==> Connected(accepted, Left(e.x), Right(e.y))
  {
    var pu, pv := PathU(arcs, e), PathV(arcs, e);
    var j := FindJoin(pu, pv);
    if j.found {
      MeetingPathsConnect(arcs, accepted, pu, pv, j.a, j.b);
    } else if Connected(accepted, Left(e.x), Right(e.y)) {
      var w :| IsWalk(accepted, w) && w[0] == Left(e.x) && w[|w| - 1] == Right(e.y);
      var rank: Vertex -> nat :| Ranks(arcs, rank);
      WalkKeepsRoot(arcs, rank, accepted, w, |w| - 1);
      PathKeepsRoot(arcs, rank, pu, |pu| - 1);
      PathKeepsRoot(arcs, rank, pv, |pv| - 1);
    }
  }

  // ---- inserting an edge between two trees ----

  // A path that avoids the turned one is not affected.
  lemma OtherPathStays(arcs: Arcs, turned: Arcs, p: seq<Vertex>, q: seq<Vertex>)
    requires |p| > 0 && TurnedFrom(arcs, turned, p, 0)
    requires |q| > 0 && FollowsArcs(arcs, q) && q[|q| - 1] !in arcs
    requires forall i, k :: 0 <= i < |p| && 0 <= k < |q| ==> p[i] != q[k]
    ensures FollowsArcs(turned, q) && q[|q| - 1] !in turned
  {
    forall i | 0 < i < |q|
      ensures IsArc(turned, q[i - 1], q[i])
    {
      assert IsArc(arcs, q[i - 1], q[i]);
      assert q[i - 1] !in p;
    }
    var r := q[|q| - 1];
    if r in turned {
      assert IsArc(turned, r, turned[r]) && r !in p;
    }
  }

  lemma LinkingAddsOneEdge(arcs: Arcs, u: Vertex, v: Vertex)
    requires u !in arcs
    ensures |arcs[u := v]| == |arcs| + 1
    ensures forall a, b :: Adjacent(arcs[u := v], a, b) <==>
      Adjacent(arcs, a, b) || (a == u && b == v) || (a == v && b == u)
  {
    var joined := arcs[u := v];
    assert joined.Keys == arcs.Keys + {u};
    assert |joined.Keys| == |arcs.Keys| + 1;
    assert forall a, b :: IsArc(joined, a, b) <==> IsArc(arcs, a, b) || (a == u && b == v);
  }

  lemma JoiningTrees(arcs: Arcs, p: seq<Vertex>, q: seq<Vertex>)
    requires Acyclic(arcs)
    requires |p| > 0 && FollowsArcs(arcs, p) && Distinct(p) && p[|p| - 1] !in arcs
    requires |q| > 0 && FollowsArcs(arcs, q) && q[|q| - 1] !in arcs
    requires forall i, k :: 0 <= i < |p| && 0 <= k < |q| ==> p[i] != q[k]
    ensures var joined := ReverseArcs(arcs, p, |p| - 1)[p[0] := q[0]];
      && Acyclic(joined) && |joined| == |arcs| + 1
      && forall a, b :: Adjacent(joined, a, b) <==>
        Adjacent(arcs, a, b) || (a == p[0] && b == q[0]) || (a == q[0] && b == p[0])
  {
    var turned := ReverseArcs(arcs, p, |p| - 1);
    ReversalReRoots(arcs, p);
    TurningKeepsAcyclic(arcs, turned, p);
    OtherPathStays(arcs, turned, p, q);
    assert Acyclic(turned[p[0] := q[0]]) by {
      var rank: Vertex -> nat :| Ranks(turned, rank);
      PathKeepsRoot(turned, rank, q, |q| - 1);
      LinkingKeepsAcyclic(turned, rank, p[0], q[0]);
    }
    LinkingAddsOneEdge(turned, p[0], q[0]);
  }

  lemma InsertKeepsForest(arcs: Arcs, accepted: seq<Edge>, e: Edge)
    requires IsForestOf(arcs, accepted) && GoodPaths(arcs, PathU(arcs, e), PathV(arcs, e))
    requires !FindJoin(PathU(arcs, e), PathV(arcs, e)).found
    ensures IsForestOf(Insert(arcs, e), accepted + [e])
  {
    var pu, pv := PathU(arcs, e), PathV(arcs, e);
    if |pu| > |pv| {
      JoiningTrees(arcs, pv, pu);
    } else {
      JoiningTrees(arcs, pu, pv);
    }
    forall a, b
      ensures Adjacent(Insert(arcs, e), a, b) <==> Linked(accepted + [e], a, b)
    {
      assert Adjacent(arcs, a, b) <==> Linked(accepted, a, b);
    }
  }

  // Within one tree the two vertices stay connected when the path is turned, so that the new
  // arc closes a directed cycle.
  lemma LinkingInTree(arcs: Arcs, accepted: seq<Edge>, p: seq<Vertex>, v: Vertex)
    requires IsForestOf(arcs, accepted)
    requires |p| > 0 && FollowsArcs(arcs, p) && Distinct(p) && p[|p| - 1] !in arcs
    requires Connected(accepted, p[0], v) || Connected(accepted, v, p[0])
    ensures HasDirectedCycle(ReverseArcs(arcs, p, |p| - 1)[p[0] := v])
  {
    var turned := ReverseArcs(arcs, p, |p| - 1);
    ReversalReRoots(arcs, p);
    TurningKeepsAcyclic(arcs, turned, p);
    var rank: Vertex -> nat :| Ranks(turned, rank);
    var w :| IsWalk(accepted, w)
      && ((w[0] == p[0] && w[|w| - 1] == v) || (w[0] == v && w[|w| - 1] == p[0]));
    WalkKeepsRoot(turned, rank, accepted, w, |w| - 1);
    LinkingClosesCycle(turned, rank, p[0], v);
  }

  // Inserting an edge that closes a cycle leaves a directed cycle in the maps.
  lemma InsertClosesCycle(arcs: Arcs, accepted: seq<Edge>, e: Edge)
    requires IsForestOf(arcs, accepted) && GoodPaths(arcs, PathU(arcs, e), PathV(arcs, e))
    requires FindJoin(PathU(arcs, e), PathV(arcs, e)).found
    ensures HasDirectedCycle(Insert(arcs, e))
  {
    var pu, pv := PathU(arcs, e), PathV(arcs, e);
    JoinIffConnected(arcs, accepted, e);
    if |pu| > |pv| {
      LinkingInTree(arcs, accepted, pv, Left(e.x));
    } else {
      LinkingInTree(arcs, accepted, pu, Right(e.y));
    }
  }

  // ---- the closed cycle is the only one ----

  lemma CycleUsesNewEdge(accepted: seq<Edge>, e: Edge, c: seq<Vertex>) returns (i: nat)
    requires SimpleCycle(accepted + [e], c) && !SimpleCycle(accepted, c)
    ensures i < |c|
    ensures (c[i] == Left(e.x) && After(c, i) == Right(e.y)) || (c[i] == Right(e.y) && After(c, i) == Left(e.x))
  {
    i :| 0 <= i < |c| && !Linked(accepted, c[i], After(c, i));
    assert Linked(accepted + [e], c[i], After(c, i));
  }

  // The cycle without its new edge, read from one end of that edge to the other.
  function OpenedAt(c: seq<Vertex>, i: nat): (w: seq<Vertex>)
    requires i < |c|
    ensures |w| == |c| && w[0] == After(c, i) && w[|w| - 1] == c[i]
    ensures multiset(w) == multiset(c)
  {
    assert c == c[..i + 1] + c[i + 1..];
    c[i + 1..] + c[..i + 1]
  }

  lemma OpenedIsDistinct(c: seq<Vertex>, i: nat)
    requires i < |c| && Distinct(c)
    ensures Distinct(OpenedAt(c, i))
  {
    var w := OpenedAt(c, i);
    forall j, k | 0 <= j < k < |w|
      ensures w[j] != w[k]
    {
      var m := if j + i + 1 < |c| then j + i + 1 else j + i + 1 - |c|;
      var n := if k + i + 1 < |c| then k + i + 1 else k + i + 1 - |c|;
      assert w[j] == c[m] && w[k] == c[n] && m != n;
    }
  }

  lemma OpenedStep(c: seq<Vertex>, i: nat, k: nat) returns (n: nat)
    requires i < |c| && 0 < k < |c|
    ensures n < |c| && n != i && OpenedAt(c, i)[k - 1] == c[n] && OpenedAt(c, i)[k] == After(c, n)
  {
    n := if k + i < |c| then k + i else k + i - |c|;
  }

  lemma CycleOpensToWalk(accepted: seq<Edge>, e: Edge, c: seq<Vertex>, i: nat)
    requires SimpleCycle(accepted + [e], c) && i < |c|
    requires (c[i] == Left(e.x) && After(c, i) == Right(e.y)) || (c[i] == Right(e.y) && After(c, i) == Left(e.x))
    ensures IsWalk(accepted, OpenedAt(c, i))
  {
    var w := OpenedAt(c, i);
    forall k | 0 < k < |w|
      ensures Linked(accepted, w[k - 1], w[k])
    {
      var n := OpenedStep(c, i, k);
      OnlyOneStepIsNew(accepted, e, c, i, n);
    }
  }

  lemma OnlyOneStepIsNew(accepted: seq<Edge>, e: Edge, c: seq<Vertex>, i: nat, n: nat)
    requires SimpleCycle(accepted + [e], c) && i < |c| && n < |c| && i != n
    requires (c[i] == Left(e.x) && After(c, i) == Right(e.y)) || (c[i] == Right(e.y) && After(c, i) == Left(e.x))
    ensures Linked(accepted, c[n], After(c, n))
  {
    assert Linked(accepted + [e], c[n], After(c, n));
  }

  lemma WalkReversed(edges: seq<Edge>, w: seq<Vertex>)
    requires IsWalk(edges, w) && Distinct(w)
    ensures IsWalk(edges, Reversed(w)) && Distinct(Reversed(w))
  {
    var r := Reversed(w);
    forall i | 0 < i < |r|
      ensures Linked(edges, r[i - 1], r[i])
    {
      var n := |w| - i;
      assert r[i - 1] == w[n] && r[i] == w[n - 1];
      assert Linked(edges, w[n - 1], w[n]);
    }
  }

  // A closed cycle, opened at its new edge, is a simple walk in the forest.
  lemma OpenClosedCycle(arcs: Arcs, accepted: seq<Edge>, e: Edge, c: seq<Vertex>) returns (w: seq<Vertex>)
    requires IsForestOf(arcs, accepted) && SimpleCycle(accepted + [e], c)
    ensures |w| == |c| && multiset(w) == multiset(c)
    ensures IsWalk(accepted, w) && Distinct(w) && w[0] == Left(e.x) && w[|w| - 1] == Right(e.y)
  {
    ForestHasNoCycle(arcs, accepted, c);
    var i := CycleUsesNewEdge(accepted, e, c);
    CycleOpensToWalk(accepted, e, c, i);
    OpenedIsDistinct(c, i);
    w := OpenedAt(c, i);
    if w[0] != Left(e.x) {
      WalkReversed(accepted, w);
      ReversedMultiset(w);
      w := Reversed(w);
    }
  }

  lemma JoinIsFirst(pu: seq<Vertex>, pv: seq<Vertex>)
    requires |pu| > 0 && |pv| > 0 && FindJoin(pu, pv).found
    requires forall i, k :: 0 <= i < |pu| && 0 <= k < |pv| && pu[i].id == pv[k].id ==> pu[i] == pv[k]
    ensures var j := FindJoin(pu, pv);
      pu[j.a] == pv[j.b] && forall i, k :: 0 <= i < j.a && 0 <= k < |pv| ==> pu[i] != pv[k]
  {
  }

  // A simple walk of accepted edges between the ends of an edge runs up to the join and down.
  lemma WalkIsTreePath(arcs: Arcs, accepted: seq<Edge>, e: Edge, w: seq<Vertex>)
    requires IsForestOf(arcs, accepted) && GoodPaths(arcs, PathU(arcs, e), PathV(arcs, e))
    requires IsWalk(accepted, w) && Distinct(w) && w[0] == Left(e.x) && w[|w| - 1] == Right(e.y)
    ensures var pu, pv := PathU(arcs, e), PathV(arcs, e);
      var j := FindJoin(pu, pv);
      && j.found && |w| == 1 + j.a + j.b
      && w == Reversed(CycleVertices(pu, pv, j.a, j.b)[..j.a + 1]) + Reversed(pv[..j.b])
  {
    var pu, pv := PathU(arcs, e), PathV(arcs, e);
    JoinIffConnected(arcs, accepted, e);
    JoinIsFirst(pu, pv);
    var j := FindJoin(pu, pv);
    TreePath(arcs, accepted, w, pu, pv, j.a, j.b);
  }

  lemma TreePath(arcs: Arcs, accepted: seq<Edge>, w: seq<Vertex>, pu: seq<Vertex>, pv: seq<Vertex>, a: nat, b: nat)
    requires IsForestOf(arcs, accepted) && GoodPaths(arcs, pu, pv)
    requires a < |pu| && b < |pv| && pu[a] == pv[b]
    requires forall i, k :: 0 <= i < a && 0 <= k < |pv| ==> pu[i] != pv[k]
    requires IsWalk(accepted, w) && Distinct(w) && w[0] == pu[0] && w[|w| - 1] == pv[0]
    ensures |w| == 1 + a + b
    ensures w == Reversed(CycleVertices(pu, pv, a, b)[..a + 1]) + Reversed(pv[..b])
  {
    assert forall x, y :: Linked(accepted, x, y) ==> Adjacent(arcs, x, y);
    SimpleWalkIsTreePath(arcs, accepted, w, pu, pv, a, b);
  }

  // Every cycle the new edge closes has the length the join reports, and runs through the
  // vertices the two paths give.
  lemma ClosedCycleIsUnique(arcs: Arcs, accepted: seq<Edge>, e: Edge, c: seq<Vertex>)
    requires IsForestOf(arcs, accepted) && GoodPaths(arcs, PathU(arcs, e), PathV(arcs, e))
    requires SimpleCycle(accepted + [e], c)
    requires FindJoin(PathU(arcs, e), PathV(arcs, e)).found
    ensures var pu, pv := PathU(arcs, e), PathV(arcs, e);
      var j := FindJoin(pu, pv);
      && |c| == j.CycleLength()
      && forall x :: x in c <==> x in CycleVertices(pu, pv, j.a, j.b)
  {
    var pu, pv := PathU(arcs, e), PathV(arcs, e);
    var j := FindJoin(pu, pv);
    var w := OpenClosedCycle(arcs, accepted, e, c);
    WalkIsTreePath(arcs, accepted, e, w);
    WalkVertices(w, pu, pv, j.a, j.b);
    SameMembers(c, CycleVertices(pu, pv, j.a, j.b));
  }

  lemma WalkVertices(w: seq<Vertex>, pu: seq<Vertex>, pv: seq<Vertex>, a: nat, b: nat)
    requires a < |pu| && b < |pv|
    requires w == Reversed(CycleVertices(pu, pv, a, b)[..a + 1]) + Reversed(pv[..b])
    ensures multiset(w) == multiset(CycleVertices(pu, pv, a, b))
  {
    var d := CycleVertices(pu, pv, a, b);
    ReversedMultiset(d[..a + 1]);
    ReversedMultiset(pv[..b]);
    assert d == d[..a + 1] + pv[..b];
  }

  // ---- one edge, from a forest ----

  // An edge already accepted is recognised; any other closes a cycle iff the join is found,
  // and then every cycle it closes has the reported length.
  lemma StepFromForest(arcs: Arcs, accepted: seq<Edge>, edges: seq<Edge>, e: Edge)
    requires IsForestOf(arcs, accepted) && |arcs| + 1 < MAX_PATH_LENGTH
    requires DisjointSides(edges) && e in edges && forall f :: f in accepted ==> f in edges
    ensures var j := FindJoin(PathU(arcs, e), PathV(arcs, e));
      && (Known(arcs, e) <==> e in accepted)
      && (j.found <==> Connected(accepted, Left(e.x), Right(e.y)))
      && (!Known(arcs, e) ==> (j.found <==> HasCycle(accepted + [e])))
      && (!Known(arcs, e) ==> forall c :: SimpleCycle(accepted + [e], c) ==> |c| == j.CycleLength())
      && (!j.found ==> IsForestOf(Insert(arcs, e), accepted + [e]))
  {
    PathsAreGood(arcs, accepted, edges, e);
    JoinIffConnected(arcs, accepted, e);
    var j := FindJoin(PathU(arcs, e), PathV(arcs, e));
    assert Adjacent(arcs, Left(e.x), Right(e.y)) <==> Linked(accepted, Left(e.x), Right(e.y));
    if !j.found {
      InsertKeepsForest(arcs, accepted, e);
      forall c
        ensures !SimpleCycle(accepted + [e], c)
      {
        ForestHasNoCycle(Insert(arcs, e), accepted + [e], c);
      }
    } else if !Known(arcs, e) {
      ForestFromEdges(arcs, accepted);
      MeetingPathsCloseACycle(arcs, accepted, e, accepted + [e]);
      forall c | SimpleCycle(accepted + [e], c)
        ensures |c| == j.CycleLength()
      {
        ClosedCycleIsUnique(arcs, accepted, e, c);
      }
    }
  }

  lemma ForestFromEdges(arcs: Arcs, accepted: seq<Edge>)
    requires IsForestOf(arcs, accepted)
    ensures FromEdges(arcs, accepted)
  {
    forall x | x in arcs
      ensures Linked(accepted, x, arcs[x])
    {
      assert Adjacent(arcs, x, arcs[x]);
    }
  }

  // ---- whole runs ----

  // No path from the ends of the edge is cut.
  ghost predicate Whole(arcs: Arcs, e: Edge) {
    |PathU(arcs, e)| < MAX_PATH_LENGTH && |PathV(arcs, e)| < MAX_PATH_LENGTH
  }

  ghost predicate WholeAt(edges: seq<Edge>, target: uint32, k: nat)
    requires k < |edges|
  {
    Whole(Run(edges[..k], target).arcs, edges[k])
  }

  ghost predicate NoPathIsCut(edges: seq<Edge>, target: uint32) {
    forall k :: 0 <= k < |edges| ==> WholeAt(edges, target, k)
  }

  lemma OneMoreWhole(before: seq<Edge>, e: Edge, target: uint32)
    requires NoPathIsCut(before, target) && Whole(Run(before, target).arcs, e)
    ensures NoPathIsCut(before + [e], target)
  {
    var edges := before + [e];
    forall k | 0 <= k < |edges|
      ensures WholeAt(edges, target, k)
    {
      assert edges[..k] == before[..k];
      if k < |before| {
        assert WholeAt(before, target, k);
      } else {
        assert before[..k] == before;
      }
    }
  }

  // As long as no cycle of another length was closed: the arcs are a rooted forest of the
  // accepted edges, no path was cut, every edge seen is accepted or a solution was
  // emitted, and there is no solution without a cycle.
  lemma {:induction false} RunKeepsForest(edges: seq<Edge>, target: uint32)
    requires DisjointSides(edges) && |edges| < MAX_PATH_LENGTH && target > 0
    requires !Run(edges, target).offTarget
    ensures var s := Run(edges, target);
      && IsForestOf(s.arcs, s.accepted) && |s.arcs| <= |edges|
      && (forall f :: f in s.accepted ==> f in edges)
      && (forall f :: f in edges && f !in s.accepted ==> s.solutions != [])
      && (s.solutions != [] ==> HasCycle(edges))
    ensures NoPathIsCut(edges, target)
  {
    if |edges| == 0 {
      assert Ranks(map[], (x: Vertex) => 0);
    } else {
      var before, e := edges[..|edges| - 1], edges[|edges| - 1];
      assert edges == before + [e];
      RunKeepsForest(before, target);
      var s := Run(before, target);
      PathsAreGood(s.arcs, s.accepted, edges, e);
      OneMoreWhole(before, e, target);
      StepFromForest(s.arcs, s.accepted, edges, e);
      if HasCycle(before) {
        var c :| SimpleCycle(before, c);
        MoreEdgesKeepCycles(before, edges, c);
      }
      if HasCycle(s.accepted + [e]) {
        var c :| SimpleCycle(s.accepted + [e], c);
        MoreEdgesKeepCycles(s.accepted + [e], edges, c);
      }
    }
  }
}
