// Trimming followed by the cycle search, against the graph the trimming started from.

module CyclePipeline {
  import opened CycleGraph
  import opened CycleSearch
  import opened CycleSoundness
  import opened CycleCompleteness
  import opened CycleExact
  import opened TrimRounds
  import opened TrimKernel
  import opened TrimProof
  import opened Words

  // An emitted list names no sides, so it tours a cycle and the flipped cycle alike.
  lemma ToursFlipped(found: seq<Edge>, ordered: seq<Edge>, c: seq<Vertex>, n: nat)
    requires Tours(found, ordered, c)
    ensures Tours(found, ordered, FlipTimes(c, n))
  {
    var d := FlipTimes(c, n);
    forall i | 0 <= i < |d|
      ensures Names(ordered[i], d[i], After(d, i))
    {
      assert Names(ordered[i], c[i], After(c, i));
    }
  }

  lemma FlipTwice(c: seq<Vertex>, n: nat)
    ensures FlipTimes(FlipTimes(c, n), n) == c
  {
  }

  // Whatever part of the trimmed edges reaches the search: what it emits for a positive
  // even target is a simple cycle of that length in the graph before trimming.
  lemma EmittedAreOriginalCycles(stages: seq<seq<Slot>>, layouts: seq<Layout>,
                                 given: seq<Edge>, target: uint32, found: seq<Edge>)
    requires Trimmed(stages, layouts) && |layouts| > 0
    requires forall e :: e in given ==> e in Edges(stages[|layouts|])
    requires target > 0 && target % 2 == 0 && found in CycleSearch.Run(given, target).solutions
    ensures IsCycleOf(Edges(stages[0]), found) && |found| == target
  {
    var n := |layouts|;
    EmittedAreCycles(given, target);
    MoreEdgesKeepFound(given, Edges(stages[n]), found);
    var c, ordered :| SimpleCycle(Edges(stages[n]), c) && Tours(found, ordered, c);
    FlipTwice(c, n);
    TrimmingKeepsExactlyCycles(stages, layouts, FlipTimes(c, n));
    ToursFlipped(found, ordered, c, n);
  }

  // If all trimmed edges reach the search, no id is on both sides and the cycles closed by a
  // leftover edge have the target length, then a cycle is emitted iff the graph before trimming
  // has one that does not use the edge (0, 0).
  lemma EmitsIffOriginalHasCycle(stages: seq<seq<Slot>>, layouts: seq<Layout>, target: uint32)
    requires Trimmed(stages, layouts) && |layouts| > 0
    requires var left := Edges(stages[|layouts|]); Admissible(left, target) && ClosesOnlyTarget(left, target)
    ensures CycleSearch.Run(Edges(stages[|layouts|]), target).solutions != []
      <==> exists c :: SimpleCycle(Edges(stages[0]), c) && AvoidsBlank(c)
  {
    var n := |layouts|;
    var left := Edges(stages[n]);
    SolutionIffCycle(left, target);
    if HasCycle(left) {
      var d :| SimpleCycle(left, d);
      FlipTwice(d, n);
      TrimmingKeepsExactlyCycles(stages, layouts, FlipTimes(d, n));
    }
    if c :| SimpleCycle(Edges(stages[0]), c) && AvoidsBlank(c) {
      TrimmingKeepsExactlyCycles(stages, layouts, c);
    }
  }
}
