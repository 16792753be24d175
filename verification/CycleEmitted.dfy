// A cycle is emitted iff all its edges but one join parts of the graph that the edges before
// them leave apart.

module CycleEmitted {
  import opened Sequences
  import opened CycleGraph
  import opened CycleSearch
  import opened CycleSoundness
  import opened CycleForest
  import opened CycleCompleteness
  import opened CycleEmission
  import opened Words

  ghost predicate Named(s: seq<Edge>, a: Vertex, b: Vertex) {
    exists m :: 0 <= m < |s| && Names(s[m], a, b)
  }

  ghost predicate NamesStep(e: Edge, c: seq<Vertex>) {
    exists n :: 0 <= n < |c| && Names(e, c[n], After(c, n))
  }

  // The pairs are the edges of the cycle.
  ghost predicate Lists(s: seq<Edge>, c: seq<Vertex>) {
    && |s| == |c|
    && (forall n :: 0 <= n < |c| ==> Named(s, c[n], After(c, n)))
    && (forall m :: 0 <= m < |s| ==> NamesStep(s[m], c))
  }

  ghost predicate Emitted(edges: seq<Edge>, target: uint32, c: seq<Vertex>) {
    exists s :: s in Run(edges, target).solutions && Lists(s, c)
  }

  // ---- a cycle may be read from any vertex and in both directions ----

  ghost predicate IsStep(c: seq<Vertex>, a: Vertex, b: Vertex) {
    exists n :: 0 <= n < |c| && ((c[n] == a && After(c, n) == b) || (c[n] == b && After(c, n) == a))
  }

  ghost predicate StepsOf(c: seq<Vertex>, d: seq<Vertex>) {
    forall n :: 0 <= n < |c| ==> IsStep(d, c[n], After(c, n))
  }

  lemma OpenedHasSteps(c: seq<Vertex>, i: nat)
    requires i < |c|
    ensures StepsOf(c, OpenedAt(c, i))
  {
    var w := OpenedAt(c, i);
    forall n | 0 <= n < |c|
      ensures IsStep(w, c[n], After(c, n))
    {
      var k := if n > i then n - i - 1 else n + |c| - i - 1;
      assert w[k] == c[n] && After(w, k) == After(c, n);
    }
  }

  lemma HasOpenedSteps(c: seq<Vertex>, i: nat)
    requires i < |c|
    ensures StepsOf(OpenedAt(c, i), c)
  {
    var w := OpenedAt(c, i);
    forall k | 0 <= k < |w|
      ensures IsStep(c, w[k], After(w, k))
    {
      var n := if k + i + 1 < |c| then k + i + 1 else k + i + 1 - |c|;
      assert w[k] == c[n] && After(w, k) == After(c, n);
    }
  }

  lemma ReversedHasSteps(c: seq<Vertex>)
    ensures StepsOf(c, Reversed(c)) && StepsOf(Reversed(c), c)
  {
    var r := Reversed(c);
    forall n | 0 <= n < |c|
      ensures IsStep(r, c[n], After(c, n)) && IsStep(c, r[n], After(r, n))
    {
      var k := if n == |c| - 1 then n else |c| - 2 - n;
      assert r[k] == After(c, n) && After(r, k) == c[n];
      assert c[k] == After(r, n) && After(c, k) == r[n];
    }
  }

  lemma NamedThere(s: seq<Edge>, d: seq<Vertex>, a: Vertex, b: Vertex)
    requires Lists(s, d) && IsStep(d, a, b)
    ensures Named(s, a, b)
  {
    var n :| 0 <= n < |d| && ((d[n] == a && After(d, n) == b) || (d[n] == b && After(d, n) == a));
    assert Named(s, d[n], After(d, n));
    var m :| 0 <= m < |s| && Names(s[m], d[n], After(d, n));
    assert Names(s[m], a, b);
  }

  lemma NamesThere(e: Edge, c: seq<Vertex>, d: seq<Vertex>)
    requires NamesStep(e, d) && StepsOf(d, c)
    ensures NamesStep(e, c)
  {
    var n :| 0 <= n < |d| && Names(e, d[n], After(d, n));
    assert IsStep(c, d[n], After(d, n));
    var a, b := d[n], After(d, n);
    var k :| 0 <= k < |c| && ((c[k] == a && After(c, k) == b) || (c[k] == b && After(c, k) == a));
    assert Names(e, c[k], After(c, k));
  }

  lemma ListsSameSteps(s: seq<Edge>, c: seq<Vertex>, d: seq<Vertex>)
    requires Lists(s, d) && |c| == |d| && StepsOf(c, d) && StepsOf(d, c)
    ensures Lists(s, c)
  {
    forall n | 0 <= n < |c|
      ensures Named(s, c[n], After(c, n))
    {
      NamedThere(s, d, c[n], After(c, n));
    }
    forall m | 0 <= m < |s|
      ensures NamesStep(s[m], c)
    {
      NamesThere(s[m], c, d);
    }
  }

  // ---- an emitted list lists the walk that closes ----

  function ClosingWalk(pu: seq<Vertex>, pv: seq<Vertex>, a: nat, b: nat): (w: seq<Vertex>)
    requires a < |pu| && b < |pv|
    ensures |w| == 1 + a + b
    ensures forall i :: 0 <= i <= a ==> w[i] == pu[i]
    ensures forall t :: 0 <= t < b ==> w[a + b - t] == pv[t]
    ensures w == Reversed(CycleVertices(pu, pv, a, b)[..a + 1]) + Reversed(pv[..b])
  {
    pu[..a + 1] + Reversed(pv[..b])
  }

  // Pair m of the emitted list is step StepOf(m) of the walk.
  function StepOf(a: nat, b: nat, m: nat): (n: nat)
    requires m <= a + b
    ensures n <= a + b
    ensures if m == 0 then n == a + b else if m <= a then n == m - 1 else n == 2 * a + b - m
  {
    if m == 0 then a + b else if m <= a then m - 1 else 2 * a + b - m
  }

  // The walk, by its vertices alone.
  ghost predicate Closes(w: seq<Vertex>, pu: seq<Vertex>, pv: seq<Vertex>, a: nat, b: nat)
    requires a < |pu| && b < |pv|
  {
    && |w| == 1 + a + b
    && (forall i :: 0 <= i <= a ==> w[i] == pu[i])
    && (forall t :: 0 <= t <= b ==> pv[t] == w[a + b - t])
  }

  lemma PairOnU(w: seq<Vertex>, pu: seq<Vertex>, pv: seq<Vertex>, a: nat, b: nat, m: nat)
    requires a < |pu| && b < |pv| && Closes(w, pu, pv, a, b) && 0 < m <= a
    ensures Names(Edge(pu[m].id, pu[m - 1].id), w[m - 1], After(w, m - 1))
  {
  }

  lemma PairOnV(w: seq<Vertex>, pu: seq<Vertex>, pv: seq<Vertex>, a: nat, b: nat, t: nat)
    requires a < |pu| && b < |pv| && Closes(w, pu, pv, a, b) && t < b
    ensures Names(Edge(pv[t + 1].id, pv[t].id), w[a + b - t - 1], After(w, a + b - t - 1))
  {
    assert pv[t] == w[a + b - t] && pv[t + 1] == w[a + b - (t + 1)];
  }

  lemma PairIs(e: Edge, s: seq<Edge>, t: seq<Edge>, m: nat)
    requires m <= |s| + |t|
    ensures ([e] + s + t)[m] == if m == 0 then e else if m <= |s| then s[m - 1] else t[m - 1 - |s|]
  {
  }

  lemma PairNamesStep(e: Edge, pu: seq<Vertex>, pv: seq<Vertex>, a: nat, b: nat, w: seq<Vertex>, m: nat)
    requires a < |pu| && b < |pv| && Closes(w, pu, pv, a, b) && m <= a + b
    requires pu[0] == Left(e.x) && pv[0] == Right(e.y)
    ensures var n := StepOf(a, b, m);
      Names(([e] + PathPairs(pu, a) + PathPairs(pv, b))[m], w[n], After(w, n))
  {
    PairIs(e, PathPairs(pu, a), PathPairs(pv, b), m);
    if m == 0 {
      assert pv[0] == w[a + b - 0];
    } else if m <= a {
      PairOnU(w, pu, pv, a, b, m);
    } else {
      PairOnV(w, pu, pv, a, b, m - 1 - a);
    }
  }

  lemma PairsListWalk(e: Edge, pu: seq<Vertex>, pv: seq<Vertex>, a: nat, b: nat)
    requires a < |pu| && b < |pv| && pu[a] == pv[b]
    requires pu[0] == Left(e.x) && pv[0] == Right(e.y)
    ensures Lists([e] + PathPairs(pu, a) + PathPairs(pv, b), ClosingWalk(pu, pv, a, b))
  {
    var s, w := [e] + PathPairs(pu, a) + PathPairs(pv, b), ClosingWalk(pu, pv, a, b);
    assert Closes(w, pu, pv, a, b) by {
      assert pv[b] == w[a + b - b];
    }
    forall n | 0 <= n < |w|
      ensures Named(s, w[n], After(w, n))
    {
      var m := if n < a then n + 1 else if n == a + b then 0 else 2 * a + b - n;
      PairNamesStep(e, pu, pv, a, b, w, m);
    }
    forall m | 0 <= m < |s|
      ensures NamesStep(s[m], w)
    {
      PairNamesStep(e, pu, pv, a, b, w, m);
    }
  }

  // ---- two simple walks of a forest between the same ends ----

  lemma WalkIsClosing(arcs: Arcs, accepted: seq<Edge>, e: Edge, w: seq<Vertex>)
    requires IsForestOf(arcs, accepted) && GoodPaths(arcs, PathU(arcs, e), PathV(arcs, e))
    requires IsWalk(accepted, w) && Distinct(w) && w[0] == Left(e.x) && w[|w| - 1] == Right(e.y)
    ensures var pu, pv := PathU(arcs, e), PathV(arcs, e);
      var j := FindJoin(pu, pv);
      w == ClosingWalk(pu, pv, j.a, j.b)
  {
    WalkIsTreePath(arcs, accepted, e, w);
  }

  lemma WalkIsUnique(arcs: Arcs, accepted: seq<Edge>, e: Edge, v: seq<Vertex>, w: seq<Vertex>)
    requires IsForestOf(arcs, accepted) && GoodPaths(arcs, PathU(arcs, e), PathV(arcs, e))
    requires IsWalk(accepted, v) && Distinct(v) && v[0] == Left(e.x) && v[|v| - 1] == Right(e.y)
    requires IsWalk(accepted, w) && Distinct(w) && w[0] == Left(e.x) && w[|w| - 1] == Right(e.y)
    ensures v == w
  {
    WalkIsClosing(arcs, accepted, e, v);
    WalkIsClosing(arcs, accepted, e, w);
  }

  lemma ClosesIsWalk(arcs: Arcs, accepted: seq<Edge>, w: seq<Vertex>, pu: seq<Vertex>, pv: seq<Vertex>, a: nat, b: nat)
    requires a < |pu| && b < |pv| && Closes(w, pu, pv, a, b)
    requires FollowsArcs(arcs, pu) && FollowsArcs(arcs, pv)
    requires forall x, y :: Adjacent(arcs, x, y) ==> Linked(accepted, x, y)
    ensures IsWalk(accepted, w)
  {
    forall i | 0 < i < |w|
      ensures Linked(accepted, w[i - 1], w[i])
    {
      if i <= a {
        assert IsArc(arcs, pu[i - 1], pu[i]);
      } else {
        var t := a + b - i;
        assert pv[t] == w[a + b - t] && pv[t + 1] == w[a + b - (t + 1)];
        assert IsArc(arcs, pv[t + 1 - 1], pv[t + 1]);
      }
      assert Adjacent(arcs, w[i - 1], w[i]);
    }
  }

  lemma ClosesIsDistinct(w: seq<Vertex>, pu: seq<Vertex>, pv: seq<Vertex>, a: nat, b: nat)
    requires a < |pu| && b < |pv| && Closes(w, pu, pv, a, b) && Distinct(pu) && Distinct(pv)
    requires forall i, k :: 0 <= i < a && 0 <= k < |pv| ==> pu[i] != pv[k]
    ensures Distinct(w)
  {
    forall i, k | 0 <= i < k < |w|
      ensures w[i] != w[k]
    {
      if k > a {
        var t := a + b - k;
        assert pv[t] == w[a + b - t];
        if i >= a {
          var r := a + b - i;
          assert pv[r] == w[a + b - r];
        }
      }
    }
  }

  // The closing walk is simple, and all its steps were accepted.
  lemma ClosingWalkIsSimple(arcs: Arcs, accepted: seq<Edge>, e: Edge)
    requires IsForestOf(arcs, accepted) && GoodPaths(arcs, PathU(arcs, e), PathV(arcs, e))
    requires FindJoin(PathU(arcs, e), PathV(arcs, e)).found
    ensures var pu, pv := PathU(arcs, e), PathV(arcs, e);
      var j := FindJoin(pu, pv);
      var w := ClosingWalk(pu, pv, j.a, j.b);
      pu[j.a] == pv[j.b] && IsWalk(accepted, w) && Distinct(w) && w[0] == Left(e.x) && w[|w| - 1] == Right(e.y)
  {
    var pu, pv := PathU(arcs, e), PathV(arcs, e);
    var j := FindJoin(pu, pv);
    JoinIsFirst(pu, pv);
    WalkOfJoin(arcs, accepted, e, pu, pv, j.a, j.b);
  }

  lemma WalkOfJoin(arcs: Arcs, accepted: seq<Edge>, e: Edge, pu: seq<Vertex>, pv: seq<Vertex>, a: nat, b: nat)
    requires a < |pu| && b < |pv| && pu[a] == pv[b] && pu[0] == Left(e.x) && pv[0] == Right(e.y)
    requires FollowsArcs(arcs, pu) && FollowsArcs(arcs, pv) && Distinct(pu) && Distinct(pv)
    requires forall i, k :: 0 <= i < a && 0 <= k < |pv| ==> pu[i] != pv[k]
    requires forall x, y :: Adjacent(arcs, x, y) ==> Linked(accepted, x, y)
    ensures var w := ClosingWalk(pu, pv, a, b);
      IsWalk(accepted, w) && Distinct(w) && w[0] == Left(e.x) && w[|w| - 1] == Right(e.y)
  {
    var w := ClosingWalk(pu, pv, a, b);
    assert pv[b] == w[a + b - b];
    assert Closes(w, pu, pv, a, b);
    ClosesIsWalk(arcs, accepted, w, pu, pv, a, b);
    ClosesIsDistinct(w, pu, pv, a, b);
    assert pv[0] == w[a + b - 0];
  }

  // ---- the edge under a step ----

  lemma LinkedEdge(edges: seq<Edge>, a: Vertex, b: Vertex)
    requires Linked(edges, a, b)
    ensures EdgeOf(a, b) in edges && EdgeOf(a, b) == EdgeOf(b, a)
    ensures forall more :: Linked(more, a, b) <==> EdgeOf(a, b) in more
  {
  }

  // With disjoint sides a pair of ids names one edge.
  lemma NamedEdge(edges: seq<Edge>, e: Edge, a: Vertex, b: Vertex)
    requires DisjointSides(edges) && e in edges && Linked(edges, a, b) && Names(e, a, b)
    ensures EdgeOf(a, b) == e
  {
    LinkedEdge(edges, a, b);
  }

  lemma SamePair(edges: seq<Edge>, a: Vertex, b: Vertex, x: Vertex, y: Vertex)
    requires DisjointSides(edges) && Linked(edges, a, b) && Linked(edges, x, y)
    requires Names(Edge(y.id, x.id), a, b)
    ensures EdgeOf(a, b) == EdgeOf(x, y)
  {
    LinkedEdge(edges, a, b);
    LinkedEdge(edges, x, y);
  }

  // Two steps of a simple cycle do not share their edge.
  lemma StepsDiffer(edges: seq<Edge>, c: seq<Vertex>, i: nat, n: nat)
    requires SimpleCycle(edges, c) && i < |c| && n < |c|
    requires EdgeOf(c[i], After(c, i)) == EdgeOf(c[n], After(c, n))
    ensures i == n
  {
    CyclesAreEven(edges, c);
    assert Linked(edges, c[i], After(c, i)) && Linked(edges, c[n], After(c, n));
  }

  // ---- what is emitted ----

  ghost predicate OthersAccepted(accepted: seq<Edge>, c: seq<Vertex>, i: nat)
    requires i < |c|
  {
    forall n :: 0 <= n < |c| && n != i ==> EdgeOf(c[n], After(c, n)) in accepted
  }

  ghost predicate OneOut(accepted: seq<Edge>, c: seq<Vertex>) {
    exists i :: 0 <= i < |c| && EdgeOf(c[i], After(c, i)) !in accepted && OthersAccepted(accepted, c, i)
  }

  // The pairs of an emitted list, after the first, run along the arcs.
  lemma SolutionAt(e: Edge, pu: seq<Vertex>, pv: seq<Vertex>, a: nat, b: nat, m: nat)
    requires a < |pu| && b < |pv| && 0 < m <= a + b
    ensures ([e] + PathPairs(pu, a) + PathPairs(pv, b))[m] ==
      if m <= a then Edge(pu[m].id, pu[m - 1].id) else Edge(pv[m - a].id, pv[m - a - 1].id)
  {
  }

  lemma PairIsAdjacent(arcs: Arcs, e: Edge, m: nat) returns (x: Vertex, y: Vertex)
    requires FollowsArcs(arcs, PathU(arcs, e)) && FollowsArcs(arcs, PathV(arcs, e)) && 0 < m < |Solution(arcs, e)|
    ensures Solution(arcs, e)[m] == Edge(y.id, x.id) && Adjacent(arcs, x, y)
  {
    var pu, pv := PathU(arcs, e), PathV(arcs, e);
    var j := FindJoin(pu, pv);
    var p, t := if m <= j.a then pu else pv, if m <= j.a then m - 1 else m - 1 - j.a;
    SolutionAt(e, pu, pv, j.a, j.b, m);
    assert IsArc(arcs, p[t + 1 - 1], p[t + 1]);
    return p[t], p[t + 1];
  }

  lemma PairAccepted(arcs: Arcs, accepted: seq<Edge>, edges: seq<Edge>, e: Edge, m: nat, a: Vertex, b: Vertex)
    requires IsForestOf(arcs, accepted) && (forall f :: f in accepted ==> f in edges) && DisjointSides(edges)
    requires FollowsArcs(arcs, PathU(arcs, e)) && FollowsArcs(arcs, PathV(arcs, e)) && 0 < m < |Solution(arcs, e)|
    requires Linked(edges, a, b) && Names(Solution(arcs, e)[m], a, b)
    ensures EdgeOf(a, b) in accepted
  {
    var x, y := PairIsAdjacent(arcs, e, m);
    LinkedEdge(accepted, x, y);
    SamePair(edges, a, b, x, y);
  }

  // The edge met last is the only one out; the others were accepted.
  lemma EmittedHasOneOut(edges: seq<Edge>, h: seq<Search>, c: seq<Vertex>, k: nat)
    requires History(edges, h) && DisjointSides(edges) && SimpleCycle(edges, c)
    requires k < |edges| && Closing(h[k], edges[k]) && Lists(Solution(h[k].arcs, edges[k]), c)
    ensures OneOut(h[|edges|].accepted, c)
  {
    var r, e, s := h[k], edges[k], Solution(h[k].arcs, edges[k]);
    StaysOut(edges, h, e, k, |edges|);
    HistoryGrows(edges, h, k, |edges|);
    AcceptedWereSeen(edges, h, k);
    assert ReadyAt(edges, h, k);
    assert s[0] == e && NamesStep(s[0], c);
    var i :| 0 <= i < |c| && Names(e, c[i], After(c, i));
    NamedEdge(edges, e, c[i], After(c, i));
    forall n | 0 <= n < |c| && n != i
      ensures EdgeOf(c[n], After(c, n)) in h[|edges|].accepted
    {
      assert Named(s, c[n], After(c, n));
      var m :| 0 <= m < |s| && Names(s[m], c[n], After(c, n));
      if m == 0 {
        NamedEdge(edges, e, c[n], After(c, n));
        StepsDiffer(edges, c, i, n);
      }
      PairAccepted(r.arcs, r.accepted, edges, e, m, c[n], After(c, n));
    }
    assert OthersAccepted(h[|edges|].accepted, c, i);
  }

  // The cycle without the edge that is out is a walk of accepted edges.
  lemma OpensToWalk(edges: seq<Edge>, accepted: seq<Edge>, c: seq<Vertex>, i: nat)
    requires SimpleCycle(edges, c) && i < |c| && OthersAccepted(accepted, c, i)
    ensures IsWalk(accepted, OpenedAt(c, i))
  {
    var w := OpenedAt(c, i);
    forall k | 0 < k < |w|
      ensures Linked(accepted, w[k - 1], w[k])
    {
      var n := OpenedStep(c, i, k);
      LinkedEdge(edges, c[n], After(c, n));
    }
  }

  lemma ListsOpened(s: seq<Edge>, c: seq<Vertex>, i: nat, w: seq<Vertex>)
    requires i < |c| && Lists(s, w) && (w == OpenedAt(c, i) || w == Reversed(OpenedAt(c, i)))
    ensures Lists(s, c)
  {
    var o := OpenedAt(c, i);
    if w != o {
      ReversedHasSteps(o);
      ListsSameSteps(s, o, w);
    }
    OpenedHasSteps(c, i);
    HasOpenedSteps(c, i);
    ListsSameSteps(s, c, o);
  }

  // A walk that closed at e, and another simple walk of accepted edges between its ends.
  lemma OpenedIsClosing(last: Search, e: Edge, o: seq<Vertex>, w: seq<Vertex>)
    requires ReadyFor(last, e)
    requires IsWalk(last.accepted, o) && Distinct(o) && EdgeOf(o[0], o[|o| - 1]) == e
    requires o[0].Left? != o[|o| - 1].Left?
    requires IsWalk(last.accepted, w) && Distinct(w) && w[0] == Left(e.x) && w[|w| - 1] == Right(e.y)
    ensures w == o || w == Reversed(o)
  {
    if o[0].Left? {
      WalkIsUnique(last.arcs, last.accepted, e, o, w);
    } else {
      WalkReversed(last.accepted, o);
      WalkIsUnique(last.arcs, last.accepted, e, Reversed(o), w);
    }
  }

  // What was emitted where the edge that is out was met lists the cycle.
  lemma SolutionListsCycle(r: Search, last: Search, edges: seq<Edge>, e: Edge, c: seq<Vertex>, i: nat)
    requires ReadyFor(r, e) && ReadyFor(last, e) && forall f :: f in r.accepted ==> f in last.accepted
    requires Connected(r.accepted, Left(e.x), Right(e.y))
    requires SimpleCycle(edges, c) && i < |c| && EdgeOf(c[i], After(c, i)) == e && OthersAccepted(last.accepted, c, i)
    ensures Lists(Solution(r.arcs, e), c)
  {
    var pu, pv := PathU(r.arcs, e), PathV(r.arcs, e);
    JoinIffConnected(r.arcs, r.accepted, e);
    ClosingWalkIsSimple(r.arcs, r.accepted, e);
    var j := FindJoin(pu, pv);
    var w := ClosingWalk(pu, pv, j.a, j.b);
    WalkStays(r.accepted, last.accepted, w);
    OpensToWalk(edges, last.accepted, c, i);
    OpenedIsDistinct(c, i);
    assert Linked(edges, c[i], After(c, i));
    OpenedIsClosing(last, e, OpenedAt(c, i), w);
    PairsListWalk(e, pu, pv, j.a, j.b);
    ListsOpened(Solution(r.arcs, e), c, i, w);
  }

  lemma WalkStays(edges: seq<Edge>, more: seq<Edge>, w: seq<Vertex>)
    requires IsWalk(edges, w) && forall f :: f in edges ==> f in more
    ensures IsWalk(more, w)
  {
    assert forall i :: 0 < i < |w| ==> Linked(more, w[i - 1], w[i]);
  }

  lemma {:induction false} NotAllAccepted(edges: seq<Edge>, h: seq<Search>, k: nat)
    requires History(edges, h) && k <= |edges|
    ensures |h[k].accepted| + |h[k].solutions| <= k
    decreases k
  {
    if k > 0 {
      NotAllAccepted(edges, h, k - 1);
      assert StepAt(edges, h, k - 1);
    }
  }

  // With an edge out, the paths at the end of the run are not capped either.
  lemma ReadyAtEnd(edges: seq<Edge>, target: uint32, e: Edge)
    requires OnTarget(edges, target) && e in edges && Run(edges, target).solutions != []
    ensures ReadyFor(Run(edges, target), e)
  {
    StatesAreHistory(edges, target);
    NotAllAccepted(edges, States(edges, target), |edges|);
    assert edges[..|edges|] == edges;
    RunKeepsForest(edges, target);
    PathsAreGood(Run(edges, target).arcs, Run(edges, target).accepted, edges, e);
  }

  lemma OneOutIsEmitted(edges: seq<Edge>, target: uint32, c: seq<Vertex>, i: nat)
    requires OnTarget(edges, target) && SimpleCycle(edges, c) && i < |c|
    requires EdgeOf(c[i], After(c, i)) !in Run(edges, target).accepted
    requires OthersAccepted(Run(edges, target).accepted, c, i)
    ensures Emitted(edges, target, c)
  {
    var h, e := States(edges, target), EdgeOf(c[i], After(c, i));
    StatesAreHistory(edges, target);
    assert edges[..|edges|] == edges && h[|edges|] == Run(edges, target);
    assert Linked(edges, c[i], After(c, i));
    LinkedEdge(edges, c[i], After(c, i));
    var k :| 0 <= k < |edges| && edges[k] == e;
    OutWasClosing(edges, h, k);
    HistoryGrows(edges, h, k, |edges|);
    ReadyAtEnd(edges, target, e);
    assert ReadyAt(edges, h, k);
    SolutionListsCycle(h[k], h[|edges|], edges, e, c, i);
  }

  // ---- the result ----

  // All edges of the cycle but one join parts that the edges before them leave apart.
  ghost predicate OneLeftOver(edges: seq<Edge>, c: seq<Vertex>) {
    exists i :: 0 <= i < |c| && !JoinsParts(edges, EdgeOf(c[i], After(c, i))) && OthersJoin(edges, c, i)
  }

  ghost predicate OthersJoin(edges: seq<Edge>, c: seq<Vertex>, i: nat)
    requires i < |c|
  {
    forall n :: 0 <= n < |c| && n != i ==> JoinsParts(edges, EdgeOf(c[n], After(c, n)))
  }

  lemma OneOutIffLeftOver(edges: seq<Edge>, accepted: seq<Edge>, c: seq<Vertex>)
    requires forall f :: f in accepted <==> JoinsParts(edges, f)
    ensures OneOut(accepted, c) <==> OneLeftOver(edges, c)
  {
    assert forall i :: 0 <= i < |c| ==> (OthersAccepted(accepted, c, i) <==> OthersJoin(edges, c, i));
  }

  // As long as no cycle of another length is closed, a cycle is emitted iff all its edges but
  // one join what the edges before them leave apart.
  lemma EmittedOnTarget(edges: seq<Edge>, target: uint32, c: seq<Vertex>)
    requires OnTarget(edges, target) && SimpleCycle(edges, c)
    ensures Emitted(edges, target, c) <==> OneLeftOver(edges, c)
  {
    var h, accepted := States(edges, target), Run(edges, target).accepted;
    StatesAreHistory(edges, target);
    assert edges[..|edges|] == edges && h[|edges|] == Run(edges, target);
    forall f
      ensures f in accepted <==> JoinsParts(edges, f)
    {
      AcceptedIffJoins(edges, target, f);
    }
    OneOutIffLeftOver(edges, accepted, c);
    if Emitted(edges, target, c) {
      var s :| s in h[|edges|].solutions && Lists(s, c);
      var k := WhereEmitted(edges, h, s, |edges|);
      EmittedHasOneOut(edges, h, c, k);
    } else if OneOut(accepted, c) {
      var i :| 0 <= i < |c| && EdgeOf(c[i], After(c, i)) !in accepted && OthersAccepted(accepted, c, i);
      OneOutIsEmitted(edges, target, c, i);
    }
  }
}
