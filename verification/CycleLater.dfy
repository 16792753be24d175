// A cycle of the target length that comes after any other edges, in the order of a tour and
// on new vertices but one, is emitted: also when the maps already hold directed cycles.

module CycleLater {
  import opened Sequences
  import opened CycleGraph
  import opened CycleSearch
  import opened CycleSoundness
  import opened CycleForest
  import opened CycleCompleteness
  import opened CycleEmitted
  import opened CycleExact
  import opened Words

  // The first k edges of a tour of c.
  function Tour(c: seq<Vertex>, k: nat): (s: seq<Edge>)
    requires k <= |c|
    ensures |s| == k
  {
    seq(k, i requires 0 <= i < k => EdgeOf(c[i], After(c, i)))
  }

  // Sides alternate, no id occurs twice, and a path along the cycle is not cut.
  ghost predicate TourOf(c: seq<Vertex>) {
    && 4 <= |c| <= MAX_PATH_LENGTH
    && (forall i, j :: 0 <= i < j < |c| ==> c[i].id != c[j].id)
    && (forall i :: 0 <= i < |c| ==> Crossing(c, i))
  }

  predicate Crossing(c: seq<Vertex>, i: nat)
    requires i < |c|
  {
    c[i].Left? != After(c, i).Left?
  }

  // The id of a vertex of c other than the first.
  ghost predicate NewId(c: seq<Vertex>, id: uint32) {
    exists i :: 1 <= i < |c| && c[i].id == id
  }

  ghost predicate NewFor(before: seq<Edge>, c: seq<Vertex>) {
    forall e :: e in before ==> !NewId(c, e.x) && !NewId(c, e.y)
  }

  // ---- what the maps hold after k edges of the tour ----

  ghost predicate HangsBelow(arcs: Arcs, c: seq<Vertex>, i: int)
    requires 1 <= i < |c|
  {
    IsArc(arcs, c[i], c[i - 1])
  }

  // c[k], c[k - 1], ... down to c[r] hang one below the other; the rest of c is not there yet,
  // and old vertices do not lead to new ones. When c[0] was a root on the left, it hangs below
  // c[1], which is the root then: r is 1.
  ghost predicate Chain(arcs: Arcs, c: seq<Vertex>, k: nat, r: nat) {
    && r <= k < |c| && r <= 1
    && (forall i :: r < i <= k ==> HangsBelow(arcs, c, i))
    && (r == 1 ==> c[0].Left? && IsArc(arcs, c[0], c[1]) && c[1] !in arcs)
    && (forall j :: k < j < |c| ==> c[j] !in arcs)
    && (forall x :: x in arcs && !NewId(c, x.id) && !(r == 1 && x == c[0]) ==> !NewId(c, arcs[x].id))
  }

  lemma FirstIsOld(c: seq<Vertex>)
    requires TourOf(c)
    ensures !NewId(c, c[0].id)
  {
  }

  lemma NewAt(c: seq<Vertex>, i: nat)
    requires 1 <= i < |c|
    ensures NewId(c, c[i].id)
  {
  }

  // Before the tour there are old vertices only.
  lemma ChainStarts(arcs: Arcs, before: seq<Edge>, c: seq<Vertex>)
    requires TourOf(c) && NewFor(before, c) && FromEdges(arcs, before)
    ensures Chain(arcs, c, 0, 0)
  {
    forall x | x in arcs
      ensures !NewId(c, x.id) && !NewId(c, arcs[x].id)
    {
      assert Linked(before, x, arcs[x]);
      assert EdgeOf(x, arcs[x]) in before;
    }
    forall j: nat | 0 < j < |c|
      ensures c[j] !in arcs
    {
      NewAt(c, j);
    }
  }

  // ---- paths ----

  // A path along given arcs, and on from their end.
  lemma {:induction false} PathAlong(arcs: Arcs, w: seq<Vertex>, cap: nat)
    requires 0 < |w| <= cap && FollowsArcs(arcs, w)
    ensures PathFrom(arcs, w[0], cap) == w[..|w| - 1] + PathFrom(arcs, w[|w| - 1], cap + 1 - |w|)
    decreases |w|
  {
    if |w| > 1 {
      var rest := w[1..];
      assert IsArc(arcs, w[1 - 1], w[1]);
      assert FollowsArcs(arcs, rest) by {
        forall i | 0 < i < |rest|
          ensures IsArc(arcs, rest[i - 1], rest[i])
        {
          assert IsArc(arcs, w[i + 1 - 1], w[i + 1]);
        }
      }
      PathAlong(arcs, rest, cap - 1);
      assert w[..|w| - 1] == [w[0]] + rest[..|rest| - 1];
    }
  }

  // c[k], ..., c[r].
  function Down(c: seq<Vertex>, k: nat, r: nat): (w: seq<Vertex>)
    requires r <= k < |c|
    ensures |w| == k - r + 1 && forall i :: 0 <= i < |w| ==> w[i] == c[k - i]
  {
    seq(k - r + 1, i requires 0 <= i < k - r + 1 => c[k - i])
  }

  lemma DownFollows(arcs: Arcs, c: seq<Vertex>, k: nat, r: nat)
    requires Chain(arcs, c, k, r)
    ensures FollowsArcs(arcs, Down(c, k, r))
  {
    var w := Down(c, k, r);
    forall i | 0 < i < |w|
      ensures IsArc(arcs, w[i - 1], w[i])
    {
      assert HangsBelow(arcs, c, k - i + 1);
    }
  }

  lemma PathDown(arcs: Arcs, c: seq<Vertex>, k: nat, r: nat, cap: nat)
    requires Chain(arcs, c, k, r) && |c| <= cap
    ensures var p, tail := PathFrom(arcs, c[k], cap), PathFrom(arcs, c[r], cap - (k - r));
      && |p| == k - r + |tail| && p[k - r..] == tail
      && forall i :: 0 <= i <= k - r ==> p[i] == c[k - i]
  {
    var w := Down(c, k, r);
    DownFollows(arcs, c, k, r);
    PathAlong(arcs, w, cap);
  }

  ghost predicate OldPath(c: seq<Vertex>, p: seq<Vertex>) {
    forall i :: 0 <= i < |p| ==> !NewId(c, p[i].id)
  }

  lemma {:induction false} OldPathStaysOld(arcs: Arcs, c: seq<Vertex>, k: nat, x: Vertex, cap: nat)
    requires Chain(arcs, c, k, 0) && !NewId(c, x.id)
    ensures OldPath(c, PathFrom(arcs, x, cap))
    decreases cap
  {
    if cap > 1 && x in arcs {
      OldPathStaysOld(arcs, c, k, arcs[x], cap - 1);
    }
  }

  lemma SameOldPath(c: seq<Vertex>, p: seq<Vertex>, q: seq<Vertex>)
    requires OldPath(c, p) && p == q
    ensures OldPath(c, q)
  {
  }

  lemma RootPath(arcs: Arcs, x: Vertex, cap: nat)
    requires x !in arcs
    ensures PathFrom(arcs, x, cap) == [x]
  {
  }

  // The path from c[k]: down the chain, and from c[0] on old vertices, or up to the root c[1].
  lemma ChainPath(arcs: Arcs, c: seq<Vertex>, k: nat, r: nat, cap: nat)
    requires TourOf(c) && Chain(arcs, c, k, r) && |c| <= cap
    ensures var p := PathFrom(arcs, c[k], cap);
      && k - r < |p| && (forall i :: 0 <= i <= k - r ==> p[i] == c[k - i])
      && (r == 1 ==> |p| == k)
  {
    PathDown(arcs, c, k, r, cap);
    if r == 1 {
      RootPath(arcs, c[1], cap - (k - 1));
    }
  }

  lemma ChainPathEndsOld(arcs: Arcs, c: seq<Vertex>, k: nat, cap: nat)
    requires TourOf(c) && Chain(arcs, c, k, 0) && |c| <= cap
    ensures k <= |PathFrom(arcs, c[k], cap)| && OldPath(c, PathFrom(arcs, c[k], cap)[k..])
  {
    PathDown(arcs, c, k, 0, cap);
    FirstIsOld(c);
    OldPathStaysOld(arcs, c, k, c[0], cap - k);
    SameOldPath(c, PathFrom(arcs, c[0], cap - k), PathFrom(arcs, c[k], cap)[k..]);
  }

  // The path from c[0]: old vertices, or the one step to the root c[1].
  lemma StartPath(arcs: Arcs, c: seq<Vertex>, k: nat, r: nat)
    requires TourOf(c) && Chain(arcs, c, k, r)
    ensures var p := PathFrom(arcs, c[0], MAX_PATH_LENGTH);
      && (r == 0 ==> OldPath(c, p))
      && (r == 1 ==> p == [c[0], c[1]])
  {
    if r == 0 {
      FirstIsOld(c);
      OldPathStaysOld(arcs, c, k, c[0], MAX_PATH_LENGTH);
    } else {
      var w := [c[0], c[1]];
      assert FollowsArcs(arcs, w);
      PathAlong(arcs, w, MAX_PATH_LENGTH);
    }
  }

  // ---- an edge of the tour but the last ----

  // None of the ids on the path from c[k] is that of a later vertex.
  lemma ChainAvoids(arcs: Arcs, c: seq<Vertex>, k: nat, r: nat, j: nat, cap: nat)
    requires TourOf(c) && Chain(arcs, c, k, r) && |c| <= cap && k < j < |c|
    ensures forall i :: 0 <= i < |PathFrom(arcs, c[k], cap)| ==> PathFrom(arcs, c[k], cap)[i].id != c[j].id
  {
    var p := PathFrom(arcs, c[k], cap);
    ChainPath(arcs, c, k, r, cap);
    NewAt(c, j);
    if r == 0 {
      ChainPathEndsOld(arcs, c, k, cap);
    }
    forall i | 0 <= i < |p|
      ensures p[i].id != c[j].id
    {
      if i <= k - r {
        assert p[i] == c[k - i];
      } else {
        assert r == 0 && p[i] == p[k..][i - k];
      }
    }
  }

  lemma OneVertexJoin(pu: seq<Vertex>, pv: seq<Vertex>, x: Vertex)
    requires |pu| > 0 && |pv| > 0
    requires (pu == [x] && forall k :: 0 <= k < |pv| ==> pv[k].id != x.id)
      || (pv == [x] && forall i :: 0 <= i < |pu| ==> pu[i].id != x.id)
    ensures !FindJoin(pu, pv).found
  {
  }

  lemma ChainUnknown(arcs: Arcs, c: seq<Vertex>, k: nat, r: nat)
    requires TourOf(c) && Chain(arcs, c, k, r) && k + 1 < |c|
    ensures !IsArc(arcs, c[k], c[k + 1]) && c[k + 1] !in arcs
  {
    if k > r {
      assert HangsBelow(arcs, c, k);
    } else if k == 0 {
      FirstIsOld(c);
      NewAt(c, 1);
    }
  }

  // The edge from c[k] to c[k + 1], by its ends.
  lemma TourEnds(c: seq<Vertex>, k: nat)
    requires TourOf(c) && k < |c|
    ensures var e, next := EdgeOf(c[k], After(c, k)), After(c, k);
      && next != c[k] && c[k].Left? != next.Left?
      && (if c[k].Left? then Left(e.x) == c[k] && Right(e.y) == next else Left(e.x) == next && Right(e.y) == c[k])
  {
    assert Crossing(c, k);
  }

  function Hung(arcs: Arcs, c: seq<Vertex>, k: nat): Arcs
    requires k + 1 < |c|
  {
    if c[k] !in arcs && c[k].Left? then arcs[c[k] := c[k + 1]] else arcs[c[k + 1] := c[k]]
  }

  lemma PathLength(arcs: Arcs, x: Vertex, cap: nat)
    requires cap > 1
    ensures |PathFrom(arcs, x, cap)| > 1 <==> x in arcs
  {
  }

  lemma ChainStep(s: Search, c: seq<Vertex>, k: nat, r: nat, target: uint32)
    requires TourOf(c) && Chain(s.arcs, c, k, r) && k + 1 < |c| && target > 0
    ensures Step(s, EdgeOf(c[k], c[k + 1]), target).arcs == Hung(s.arcs, c, k)
  {
    var e := EdgeOf(c[k], c[k + 1]);
    TourEnds(c, k);
    ChainUnknown(s.arcs, c, k, r);
    ChainAvoids(s.arcs, c, k, r, k + 1, MAX_PATH_LENGTH);
    RootPath(s.arcs, c[k + 1], MAX_PATH_LENGTH);
    PathLength(s.arcs, c[k], MAX_PATH_LENGTH);
    OneVertexJoin(PathU(s.arcs, e), PathV(s.arcs, e), c[k + 1]);
  }

  lemma ChainGrows(arcs: Arcs, c: seq<Vertex>, k: nat, r: nat) returns (r': nat)
    requires TourOf(c) && Chain(arcs, c, k, r) && k + 1 < |c|
    ensures Chain(Hung(arcs, c, k), c, k + 1, r')
  {
    var after := Hung(arcs, c, k);
    NewAt(c, k + 1);
    FirstIsOld(c);
    ChainUnknown(arcs, c, k, r);
    if k > r {
      assert HangsBelow(arcs, c, k);
    }
    if r == 1 {
      assert Crossing(c, 0);
    }
    r' := if c[k] !in arcs && c[k].Left? then 1 else r;
    forall i: nat | r' < i <= k + 1
      ensures HangsBelow(after, c, i)
    {
      assert i <= k ==> HangsBelow(arcs, c, i);
    }
  }

  // One more edge of the tour.
  lemma ChainOneMore(edges: seq<Edge>, more: seq<Edge>, c: seq<Vertex>, k: nat, r: nat, target: uint32)
      returns (r': nat)
    requires TourOf(c) && Chain(Run(edges, target).arcs, c, k, r) && k + 1 < |c| && target > 0
    requires more == edges + [EdgeOf(c[k], c[k + 1])]
    ensures Chain(Run(more, target).arcs, c, k + 1, r')
  {
    RunOneMore(edges, EdgeOf(c[k], c[k + 1]), target);
    ChainStep(Run(edges, target), c, k, r, target);
    r' := ChainGrows(Run(edges, target).arcs, c, k, r);
  }

  ghost predicate ChainAfter(before: seq<Edge>, c: seq<Vertex>, k: nat, target: uint32, r: nat)
    requires k < |c|
  {
    Chain(Run(before + Tour(c, k), target).arcs, c, k, r)
  }

  lemma ChainBegins(before: seq<Edge>, c: seq<Vertex>, target: uint32)
    requires TourOf(c) && NewFor(before, c)
    ensures ChainAfter(before, c, 0, target, 0)
  {
    assert before + Tour(c, 0) == before;
    RunStaysOnEdges(before, target);
    ChainStarts(Run(before, target).arcs, before, c);
  }

  lemma ChainGoesOn(before: seq<Edge>, c: seq<Vertex>, k: nat, target: uint32, r: nat) returns (r': nat)
    requires TourOf(c) && target > 0 && k + 1 < |c| && ChainAfter(before, c, k, target, r)
    ensures ChainAfter(before, c, k + 1, target, r')
  {
    TourGrows(before, c, k);
    r' := ChainOneMore(before + Tour(c, k), before + Tour(c, k + 1), c, k, r, target);
  }

  lemma TourGrows(before: seq<Edge>, c: seq<Vertex>, k: nat)
    requires k < |c|
    ensures before + Tour(c, k + 1) == before + Tour(c, k) + [EdgeOf(c[k], After(c, k))]
  {
  }

  lemma ChainRuns(before: seq<Edge>, c: seq<Vertex>, k: nat, target: uint32) returns (r: nat)
    requires TourOf(c) && NewFor(before, c) && k < |c| && target > 0
    ensures ChainAfter(before, c, k, target, r)
  {
    ChainBegins(before, c, target);
    r := 0;
    for i := 0 to k
      invariant ChainAfter(before, c, i, target, r)
    {
      r := ChainGoesOn(before, c, i, target, r);
    }
  }

  // ---- the last edge ----

  // The indices at which the two paths meet first.
  lemma JoinIs(pu: seq<Vertex>, pv: seq<Vertex>, a: nat, b: nat)
    requires a < |pu| && b < |pv| && pu[a].id == pv[b].id
    requires forall i, k :: 0 <= i < a && 0 <= k < |pv| ==> pu[i].id != pv[k].id
    requires forall k :: 0 <= k < b ==> pv[k].id != pu[a].id
    ensures FindJoin(pu, pv) == Join(true, a, b)
  {
    var j := FindJoin(pu, pv);
    assert j.found;
    assert j.a >= a && j.a <= a;
  }

  lemma LastUnknown(arcs: Arcs, c: seq<Vertex>, r: nat)
    requires TourOf(c) && Chain(arcs, c, |c| - 1, r)
    ensures !IsArc(arcs, c[|c| - 1], c[0]) && !IsArc(arcs, c[0], c[|c| - 1])
  {
    assert HangsBelow(arcs, c, |c| - 1);
    FirstIsOld(c);
    NewAt(c, |c| - 1);
  }

  // The list closes along c: down the path from c[|c| - 1], and up that from c[0].
  ghost predicate ClosesAlong(c: seq<Vertex>, pu: seq<Vertex>, pv: seq<Vertex>) {
    && |pu| > 0 && |pv| > 0
    && var j := FindJoin(pu, pv);
       && j.found && 1 + j.a + j.b == |c| && pu[j.a] == pv[j.b]
       && EitherWay(ClosingWalk(pu, pv, j.a, j.b), c)
  }

  predicate EitherWay(w: seq<Vertex>, c: seq<Vertex>) {
    w == c || w == Reversed(c)
  }

  // p is the path from the last vertex of c, q that from the first.
  ghost predicate LastPaths(c: seq<Vertex>, r: nat, p: seq<Vertex>, q: seq<Vertex>) {
    && r <= 1 < |c| && |c| - 1 - r < |p|
    && (forall i :: 0 <= i <= |c| - 1 - r ==> p[i] == c[|c| - 1 - i])
    && (r == 1 ==> q == [c[0], c[1]])
    && (r == 0 ==> OldPath(c, q) && |q| > 0 && q[0] == c[0])
  }

  lemma LastPathsAre(arcs: Arcs, c: seq<Vertex>, r: nat)
    requires TourOf(c) && Chain(arcs, c, |c| - 1, r)
    ensures LastPaths(c, r, PathFrom(arcs, c[|c| - 1], MAX_PATH_LENGTH), PathFrom(arcs, c[0], MAX_PATH_LENGTH))
  {
    ChainPath(arcs, c, |c| - 1, r, MAX_PATH_LENGTH);
    StartPath(arcs, c, |c| - 1, r);
  }

  lemma WalkIsCycle(c: seq<Vertex>, r: nat, b: nat, p: seq<Vertex>, q: seq<Vertex>)
    requires TourOf(c) && LastPaths(c, r, p, q) && r + b + 1 == |c|
    ensures r < |q| && b < |p| && EitherWay(ClosingWalk(q, p, r, b), c)
  {
    var w := ClosingWalk(q, p, r, b);
    forall i | 0 <= i < |c|
      ensures w[i] == c[i]
    {
      if i > r {
        assert w[r + b - (r + b - i)] == p[r + b - i];
      }
    }
  }

  lemma WalkIsReversed(c: seq<Vertex>, p: seq<Vertex>, q: seq<Vertex>)
    requires TourOf(c) && LastPaths(c, 0, p, q)
    ensures EitherWay(ClosingWalk(p, q, |c| - 1, 0), c)
  {
    var w := ClosingWalk(p, q, |c| - 1, 0);
    forall i | 0 <= i < |c|
      ensures w[i] == Reversed(c)[i]
    {
      assert w[i] == p[i] && Reversed(c)[i] == c[|c| - 1 - i];
    }
  }

  lemma JoinFromLeft(c: seq<Vertex>, r: nat, b: nat, p: seq<Vertex>, q: seq<Vertex>)
    requires TourOf(c) && LastPaths(c, r, p, q) && (r == 1 ==> |p| == |c| - 1) && r + b + 1 == |c|
    ensures r < |q| && b < |p| && q[r] == p[b] && FindJoin(q, p) == Join(true, r, b)
  {
    forall k | 0 <= k < b
      ensures p[k].id != c[r].id
    {
      assert p[k] == c[|c| - 1 - k];
    }
    if r == 1 {
      forall k | 0 <= k < |p|
        ensures p[k].id != c[0].id
      {
        assert p[k] == c[|c| - 1 - k];
      }
    }
    JoinIs(q, p, r, b);
  }

  lemma JoinFromRight(c: seq<Vertex>, p: seq<Vertex>, q: seq<Vertex>)
    requires TourOf(c) && LastPaths(c, 0, p, q)
    ensures |q| > 0 && |c| - 1 < |p| && p[|c| - 1] == q[0]
    ensures FindJoin(p, q) == Join(true, |c| - 1, 0)
  {
    var n := |c|;
    forall i: nat, k: nat | i < n - 1 && k < |q|
      ensures p[i].id != q[k].id
    {
      NewAt(c, n - 1 - i);
      assert p[i] == c[n - 1 - i];
    }
    assert p[n - 1] == c[0];
    JoinIs(p, q, n - 1, 0);
  }

  lemma ClosesBy(c: seq<Vertex>, pu: seq<Vertex>, pv: seq<Vertex>, a: nat, b: nat)
    requires a < |pu| && b < |pv| && FindJoin(pu, pv) == Join(true, a, b)
    requires 1 + a + b == |c| && pu[a] == pv[b]
    requires EitherWay(ClosingWalk(pu, pv, a, b), c)
    ensures ClosesAlong(c, pu, pv)
  {
  }

  // c[0] is on the left.
  lemma ClosesFromLeft(c: seq<Vertex>, r: nat, p: seq<Vertex>, q: seq<Vertex>)
    requires TourOf(c) && LastPaths(c, r, p, q) && (r == 1 ==> |p| == |c| - 1)
    ensures ClosesAlong(c, q, p)
  {
    var b: nat := |c| - 1 - r;
    JoinFromLeft(c, r, b, p, q);
    WalkIsCycle(c, r, b, p, q);
    ClosesBy(c, q, p, r, b);
  }

  // c[0] is on the right.
  lemma ClosesFromRight(c: seq<Vertex>, p: seq<Vertex>, q: seq<Vertex>)
    requires TourOf(c) && LastPaths(c, 0, p, q)
    ensures ClosesAlong(c, p, q)
  {
    JoinFromRight(c, p, q);
    WalkIsReversed(c, p, q);
    ClosesBy(c, p, q, |c| - 1, 0);
  }

  lemma LastEdgeCloses(arcs: Arcs, c: seq<Vertex>, r: nat)
    requires TourOf(c) && Chain(arcs, c, |c| - 1, r)
    ensures var e := EdgeOf(c[|c| - 1], c[0]);
      !Known(arcs, e) && ClosesAlong(c, PathU(arcs, e), PathV(arcs, e))
  {
    var n := |c|;
    TourEnds(c, n - 1);
    LastUnknown(arcs, c, r);
    LastPathsAre(arcs, c, r);
    var p, q := PathFrom(arcs, c[n - 1], MAX_PATH_LENGTH), PathFrom(arcs, c[0], MAX_PATH_LENGTH);
    ChainPath(arcs, c, n - 1, r, MAX_PATH_LENGTH);
    if c[0].Left? {
      ClosesFromLeft(c, r, p, q);
    } else {
      ClosesFromRight(c, p, q);
    }
  }

  lemma ListsWhole(s: seq<Edge>, c: seq<Vertex>, w: seq<Vertex>)
    requires |c| > 0 && Lists(s, w) && EitherWay(w, c)
    ensures Lists(s, c)
  {
    assert OpenedAt(c, |c| - 1) == c;
    ListsOpened(s, c, |c| - 1, w);
  }

  lemma ClosingListsCycle(arcs: Arcs, c: seq<Vertex>, e: Edge)
    requires |c| > 0 && ClosesAlong(c, PathU(arcs, e), PathV(arcs, e))
    ensures Lists(Solution(arcs, e), c)
  {
    var pu, pv := PathU(arcs, e), PathV(arcs, e);
    var j := FindJoin(pu, pv);
    var w := ClosingWalk(pu, pv, j.a, j.b);
    PairsListWalk(e, pu, pv, j.a, j.b);
    assert Solution(arcs, e) == [e] + PathPairs(pu, j.a) + PathPairs(pv, j.b);
    ListsWhole(Solution(arcs, e), c, w);
  }

  // The step that closes the tour emits it.
  lemma ClosingStep(s: Search, c: seq<Vertex>, e: Edge, target: uint32)
    requires |c| > 0 && !Known(s.arcs, e) && ClosesAlong(c, PathU(s.arcs, e), PathV(s.arcs, e)) && |c| == target
    ensures Solution(s.arcs, e) in Step(s, e, target).solutions
  {
  }

  lemma CycleIsSimple(edges: seq<Edge>, c: seq<Vertex>)
    requires TourOf(c) && forall e :: e in Tour(c, |c|) ==> e in edges
    ensures SimpleCycle(edges, c)
  {
    forall i | 0 <= i < |c|
      ensures Linked(edges, c[i], After(c, i))
    {
      assert Tour(c, |c|)[i] in Tour(c, |c|);
      assert Crossing(c, i);
    }
  }

  // Any edges may come before, with cycles of any length, ids on both sides, and paths that are
  // cut, and any may follow.
  lemma LaterCycleIsEmitted(before: seq<Edge>, c: seq<Vertex>, rest: seq<Edge>, target: uint32)
    requires TourOf(c) && NewFor(before, c) && |c| == target
    ensures var edges := before + Tour(c, |c|) + rest;
      SimpleCycle(edges, c) && Emitted(edges, target, c)
  {
    var n := |c|;
    var edges, closed := before + Tour(c, n) + rest, before + Tour(c, n);
    CycleIsSimple(edges, c);
    EmittedAtLast(before, c, target);
    var s :| s in Run(closed, target).solutions && Lists(s, c);
    assert edges[..|closed|] == closed;
    SolutionsGrow(edges, |closed|, target);
  }

  lemma EmittedAtLast(before: seq<Edge>, c: seq<Vertex>, target: uint32)
    requires TourOf(c) && NewFor(before, c) && |c| == target
    ensures Emitted(before + Tour(c, |c|), target, c)
  {
    var n := |c|;
    var most, e := before + Tour(c, n - 1), EdgeOf(c[n - 1], c[0]);
    var r := ChainRuns(before, c, n - 1, target);
    var s := Run(most, target);
    LastEdgeCloses(s.arcs, c, r);
    ClosingListsCycle(s.arcs, c, e);
    ClosingStep(s, c, e, target);
    TourGrows(before, c, n - 1);
    RunOneMore(most, e, target);
  }
}
