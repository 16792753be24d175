// find_cycles judged by its input alone: for which edge lists it closes no cycle of another
// length, and what it emits for those.

module CycleExact {
  import opened Sequences
  import opened CycleGraph
  import opened CycleSearch
  import opened CycleSoundness
  import opened CycleForest
  import opened CycleCompleteness
  import opened CycleEmission
  import opened CycleEmitted
  import opened Words

  ghost predicate Admissible(edges: seq<Edge>, target: uint32) {
    DisjointSides(edges) && |edges| < MAX_PATH_LENGTH && target > 0
  }

  // The cycles closed by the last of their edges over edges that join parts have the target
  // length. Other cycles may have any length.
  ghost predicate ClosesOnlyTarget(edges: seq<Edge>, target: uint32) {
    forall c :: SimpleCycle(edges, c) && OneLeftOver(edges, c) ==> |c| == target
  }

  // ---- from the input to the run ----

  lemma JoinsPartsLast(before: seq<Edge>, e: Edge, f: Edge)
    ensures JoinsParts(before + [e], f)
       <==> JoinsParts(before, f) || (e == f && !Connected(before, Left(f.x), Right(f.y)))
  {
    var edges := before + [e];
    assert forall k :: 0 <= k <= |before| ==> before[..k] == edges[..k];
    assert before[..|before|] == before;
    if JoinsParts(before, f) {
      var k :| 0 <= k < |before| && before[k] == f && !Connected(before[..k], Left(f.x), Right(f.y));
      assert edges[k] == f && !Connected(edges[..k], Left(f.x), Right(f.y));
    }
    if e == f && !Connected(before, Left(f.x), Right(f.y)) {
      assert edges[|before|] == f && !Connected(edges[..|before|], Left(f.x), Right(f.y));
    }
  }

  // Whether an edge joined parts is settled once it was met.
  lemma JoinsPartsLater(before: seq<Edge>, e: Edge, f: Edge)
    requires f in before
    ensures JoinsParts(before, f) <==> JoinsParts(before + [e], f)
  {
    JoinsPartsLast(before, e, f);
    LinkConnects(before, Left(f.x), Right(f.y));
  }

  lemma LeftOverLater(before: seq<Edge>, e: Edge, c: seq<Vertex>)
    requires SimpleCycle(before, c) && OneLeftOver(before, c)
    ensures OneLeftOver(before + [e], c)
  {
    forall n | 0 <= n < |c|
      ensures JoinsParts(before, EdgeOf(c[n], After(c, n))) <==> JoinsParts(before + [e], EdgeOf(c[n], After(c, n)))
    {
      assert Linked(before, c[n], After(c, n));
      LinkedEdge(before, c[n], After(c, n));
      JoinsPartsLater(before, e, EdgeOf(c[n], After(c, n)));
    }
    var i :| 0 <= i < |c| && !JoinsParts(before, EdgeOf(c[i], After(c, i))) && OthersJoin(before, c, i);
    assert OthersJoin(before + [e], c, i);
  }

  lemma ClosesOnlyTargetBefore(before: seq<Edge>, e: Edge, target: uint32)
    requires ClosesOnlyTarget(before + [e], target)
    ensures ClosesOnlyTarget(before, target)
  {
    forall c | SimpleCycle(before, c) && OneLeftOver(before, c)
      ensures |c| == target
    {
      MoreEdgesKeepCycles(before, before + [e], c);
      LeftOverLater(before, e, c);
    }
  }

  // A cycle that a new edge closes over accepted edges has that edge left over.
  lemma ClosedIsLeftOver(before: seq<Edge>, accepted: seq<Edge>, e: Edge, c: seq<Vertex>, i: nat)
    requires forall f :: f in accepted ==> f in before && JoinsParts(before, f)
    requires !JoinsParts(before + [e], e)
    requires SimpleCycle(accepted + [e], c) && i < |c|
    requires (c[i] == Left(e.x) && After(c, i) == Right(e.y)) || (c[i] == Right(e.y) && After(c, i) == Left(e.x))
    ensures OneLeftOver(before + [e], c)
  {
    forall n | 0 <= n < |c| && n != i
      ensures JoinsParts(before + [e], EdgeOf(c[n], After(c, n)))
    {
      OnlyOneStepIsNew(accepted, e, c, i, n);
      LinkedEdge(accepted, c[n], After(c, n));
      JoinsPartsLater(before, e, EdgeOf(c[n], After(c, n)));
    }
    assert EdgeOf(c[i], After(c, i)) == e && OthersJoin(before + [e], c, i);
  }

  lemma NewEdgeIsLeftOver(before: seq<Edge>, e: Edge, target: uint32)
    requires OnTarget(before, target) && Closing(Run(before, target), e)
    ensures !JoinsParts(before + [e], e)
  {
    AcceptedIffJoins(before, target, e);
    RunKeepsForest(before, target);
    MoreEdgesConnect(Run(before, target).accepted, before, Left(e.x), Right(e.y));
    JoinsPartsLast(before, e, e);
  }

  lemma ClosedHasTarget(before: seq<Edge>, e: Edge, target: uint32, c: seq<Vertex>)
    requires OnTarget(before, target) && Closing(Run(before, target), e) && ClosesOnlyTarget(before + [e], target)
    requires SimpleCycle(Run(before, target).accepted + [e], c)
    ensures |c| == target
  {
    var s := Run(before, target);
    RunKeepsForest(before, target);
    ForestHasNoCycle(s.arcs, s.accepted, c);
    var i := CycleUsesNewEdge(s.accepted, e, c);
    NewEdgeIsLeftOver(before, e, target);
    forall f | f in s.accepted
      ensures JoinsParts(before, f)
    {
      AcceptedIffJoins(before, target, f);
    }
    ClosedIsLeftOver(before, s.accepted, e, c, i);
    MoreEdgesKeepCycles(s.accepted + [e], before + [e], c);
  }

  lemma StepStaysOnTarget(s: Search, edges: seq<Edge>, e: Edge, target: uint32)
    requires IsForestOf(s.arcs, s.accepted) && |s.arcs| + 1 < MAX_PATH_LENGTH && !s.offTarget && target > 0
    requires DisjointSides(edges) && e in edges && forall f :: f in s.accepted ==> f in edges
    requires Closing(s, e) ==> forall c :: SimpleCycle(s.accepted + [e], c) ==> |c| == target
    ensures !Step(s, e, target).offTarget
  {
    StepFromForest(s.arcs, s.accepted, edges, e);
  }

  lemma {:induction false} StaysOnTarget(edges: seq<Edge>, target: uint32)
    requires Admissible(edges, target) && ClosesOnlyTarget(edges, target)
    ensures !Run(edges, target).offTarget
  {
    if |edges| > 0 {
      var before, e := edges[..|edges| - 1], edges[|edges| - 1];
      assert edges == before + [e];
      ClosesOnlyTargetBefore(before, e, target);
      StaysOnTarget(before, target);
      RunKeepsForest(before, target);
      var s := Run(before, target);
      if Closing(s, e) {
        forall c | SimpleCycle(s.accepted + [e], c)
          ensures |c| == target
        {
          ClosedHasTarget(before, e, target, c);
        }
      }
      StepStaysOnTarget(s, edges, e, target);
    }
  }

  // ---- and back ----

  lemma EmittedHasTarget(edges: seq<Edge>, target: uint32, c: seq<Vertex>)
    requires Emitted(edges, target, c) && target > 0
    ensures |c| == target
  {
    EmittedAreCycles(edges, target);
  }

  // No cycle of another length is closed if and only if all cycles closed by a leftover edge
  // have the target length.
  lemma OnlyTargetCyclesClosed(edges: seq<Edge>, target: uint32)
    requires Admissible(edges, target)
    ensures !Run(edges, target).offTarget <==> ClosesOnlyTarget(edges, target)
  {
    if !Run(edges, target).offTarget {
      forall c | SimpleCycle(edges, c) && OneLeftOver(edges, c)
        ensures |c| == target
      {
        EmittedOnTarget(edges, target, c);
        EmittedHasTarget(edges, target, c);
      }
    } else if ClosesOnlyTarget(edges, target) {
      StaysOnTarget(edges, target);
    }
  }

  lemma OffTargetStep(s: Search, e: Edge, target: uint32)
    requires !s.offTarget && Step(s, e, target).offTarget
    ensures FindJoin(PathU(s.arcs, e), PathV(s.arcs, e)).found
    ensures Step(s, e, target).arcs == Insert(s.arcs, e)
  {
  }

  // The step that closes a cycle of another length for the first time puts a directed cycle
  // into the maps, and no other step before it does.
  lemma OffTargetMakesDirectedCycle(before: seq<Edge>, e: Edge, target: uint32)
    requires Admissible(before + [e], target) && !Run(before, target).offTarget
    ensures Run(before + [e], target).offTarget <==> HasDirectedCycle(Run(before + [e], target).arcs)
  {
    var s := Run(before, target);
    assert (before + [e])[..|before|] == before;
    RunKeepsForest(before, target);
    if Run(before + [e], target).offTarget {
      PathsAreGood(s.arcs, s.accepted, before + [e], e);
      OffTargetStep(s, e, target);
      InsertClosesCycle(s.arcs, s.accepted, e);
    } else {
      RunKeepsForest(before + [e], target);
      AcyclicHasNone(Run(before + [e], target).arcs);
    }
  }

  // ---- what is emitted ----

  // A cycle is emitted iff all its edges but one join what the edges before them leave apart.
  // So a cycle with two edges that each close a cycle is missed.
  lemma EmittedIffOneLeftOver(edges: seq<Edge>, target: uint32, c: seq<Vertex>)
    requires Admissible(edges, target) && ClosesOnlyTarget(edges, target) && SimpleCycle(edges, c)
    ensures Emitted(edges, target, c) <==> OneLeftOver(edges, c)
  {
    OnlyTargetCyclesClosed(edges, target);
    EmittedOnTarget(edges, target, c);
  }

  // All cycles of the target length are emitted if and only if none of them has two edges that
  // each close a cycle.
  lemma AllEmittedIffOneLeftOverEach(edges: seq<Edge>, target: uint32)
    requires Admissible(edges, target) && ClosesOnlyTarget(edges, target)
    ensures (forall c :: SimpleCycle(edges, c) && |c| == target ==> Emitted(edges, target, c))
       <==> (forall c :: SimpleCycle(edges, c) && |c| == target ==> OneLeftOver(edges, c))
  {
    forall c | SimpleCycle(edges, c)
      ensures Emitted(edges, target, c) <==> OneLeftOver(edges, c)
    {
      EmittedIffOneLeftOver(edges, target, c);
    }
  }

  lemma SolutionIffCycle(edges: seq<Edge>, target: uint32)
    requires Admissible(edges, target) && ClosesOnlyTarget(edges, target)
    ensures Run(edges, target).solutions != [] <==> HasCycle(edges)
  {
    OnlyTargetCyclesClosed(edges, target);
    RunKeepsForest(edges, target);
    var s := Run(edges, target);
    if HasCycle(edges) && s.solutions == [] {
      var c :| SimpleCycle(edges, c);
      MoreEdgesKeepCycles(edges, s.accepted, c);
      ForestHasNoCycle(s.arcs, s.accepted, c);
    }
  }

  // A list that is emitted was closed by a cycle of the target length.
  lemma SomeEmitted(edges: seq<Edge>, target: uint32, s: seq<Edge>) returns (c: seq<Vertex>)
    requires OnTarget(edges, target) && s in Run(edges, target).solutions
    ensures SimpleCycle(edges, c) && |c| == target
  {
    var h := States(edges, target);
    StatesAreHistory(edges, target);
    assert edges[..|edges|] == edges && h[|edges|] == Run(edges, target);
    var k := WhereEmitted(edges, h, s, |edges|);
    var r, e := h[k], edges[k];
    PrefixOnTarget(edges, target, k);
    RunKeepsForest(edges[..k], target);
    StepFromForest(r.arcs, r.accepted, edges, e);
    c :| SimpleCycle(r.accepted + [e], c);
    MoreEdgesKeepCycles(r.accepted + [e], edges, c);
    EmittedAreCycles(edges, target);
    SolutionLength(r.arcs, e);
  }

  lemma SolutionLength(arcs: Arcs, e: Edge)
    requires FindJoin(PathU(arcs, e), PathV(arcs, e)).found
    ensures |Solution(arcs, e)| == FindJoin(PathU(arcs, e), PathV(arcs, e)).CycleLength()
  {
  }

  // Completeness: something is emitted iff the input has a cycle of the target length.
  lemma FindsCycleIffThereIsOne(edges: seq<Edge>, target: uint32)
    requires Admissible(edges, target) && ClosesOnlyTarget(edges, target)
    ensures Run(edges, target).solutions != [] <==> exists c :: SimpleCycle(edges, c) && |c| == target
  {
    OnlyTargetCyclesClosed(edges, target);
    SolutionIffCycle(edges, target);
    if Run(edges, target).solutions != [] {
      var c := SomeEmitted(edges, target, Run(edges, target).solutions[0]);
    }
  }

  // ---- after a cycle of another length ----

  lemma {:induction false} SolutionsGrow(edges: seq<Edge>, k: nat, target: uint32)
    requires k <= |edges|
    ensures forall s :: s in Run(edges[..k], target).solutions ==> s in Run(edges, target).solutions
    decreases |edges|
  {
    if k == |edges| {
      assert edges[..k] == edges;
    } else {
      var before := edges[..|edges| - 1];
      assert before[..k] == edges[..k];
      SolutionsGrow(before, k, target);
    }
  }

  // For any input: what the condition promises of a beginning of the list is emitted, whatever
  // follows.
  lemma EarlierCyclesStay(edges: seq<Edge>, k: nat, target: uint32, c: seq<Vertex>)
    requires k <= |edges| && Admissible(edges[..k], target) && ClosesOnlyTarget(edges[..k], target)
    requires SimpleCycle(edges[..k], c) && OneLeftOver(edges[..k], c)
    ensures Emitted(edges, target, c) && SimpleCycle(edges, c)
  {
    EmittedIffOneLeftOver(edges[..k], target, c);
    SolutionsGrow(edges, k, target);
    var s :| s in Run(edges[..k], target).solutions && Lists(s, c);
    MoreEdgesKeepCycles(edges[..k], edges, c);
  }
}
