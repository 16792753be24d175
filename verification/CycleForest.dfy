// Rooted forests held as arc maps: paths end at a root, reversing a path re-roots a tree,
// an arc between two trees joins them, and tree paths are unique.

module CycleForest {
  import opened Sequences
  import opened CycleGraph
  import opened CycleSearch
  import opened CycleSoundness

  // Every arc leads to a vertex of lower rank.
  ghost predicate Ranks(arcs: Arcs, rank: Vertex -> nat) {
    forall x :: x in arcs ==> rank(arcs[x]) < rank(x)
  }

  ghost predicate Acyclic(arcs: Arcs) {
    exists rank: Vertex -> nat :: Ranks(arcs, rank)
  }

  ghost predicate Adjacent(arcs: Arcs, a: Vertex, b: Vertex) {
    IsArc(arcs, a, b) || IsArc(arcs, b, a)
  }

  ghost function RootOf(arcs: Arcs, rank: Vertex -> nat, x: Vertex): (r: Vertex)
    requires Ranks(arcs, rank)
    ensures r !in arcs
    decreases rank(x)
  {
    if x in arcs then RootOf(arcs, rank, arcs[x]) else x
  }

  // ---- paths in a forest ----

  lemma {:induction false} PathDescends(arcs: Arcs, rank: Vertex -> nat, p: seq<Vertex>, i: nat, k: nat)
    requires Ranks(arcs, rank) && FollowsArcs(arcs, p)
    requires i < k < |p|
    ensures rank(p[k]) < rank(p[i])
    decreases k
  {
    assert IsArc(arcs, p[k - 1], p[k]);
    if i < k - 1 {
      PathDescends(arcs, rank, p, i, k - 1);
    }
  }

  lemma PathIsSimple(arcs: Arcs, p: seq<Vertex>)
    requires Acyclic(arcs) && FollowsArcs(arcs, p)
    ensures Distinct(p)
  {
    var rank: Vertex -> nat :| Ranks(arcs, rank);
    forall i, k | 0 <= i < k < |p|
      ensures p[i] != p[k]
    {
      PathDescends(arcs, rank, p, i, k);
    }
  }

  // A path in a small forest is not capped: it ends at a root.
  lemma PathEndsAtRoot(arcs: Arcs, x: Vertex, cap: nat)
    requires Acyclic(arcs) && |arcs| + 1 < cap
    ensures var p := PathFrom(arcs, x, cap);
      |p| <= |arcs| + 1 && FollowsArcs(arcs, p) && Distinct(p) && p[|p| - 1] !in arcs
  {
    var p := PathFrom(arcs, x, cap);
    PathFollowsArcs(arcs, x, cap);
    PathIsSimple(arcs, p);
    var inner := p[..|p| - 1];
    forall y | y in inner
      ensures y in arcs.Keys
    {
      var i :| 0 <= i < |inner| && inner[i] == y;
      assert IsArc(arcs, p[i + 1 - 1], p[i + 1]);
    }
    DistinctFits(inner, arcs.Keys);
  }

  lemma {:induction false} PathKeepsRoot(arcs: Arcs, rank: Vertex -> nat, p: seq<Vertex>, i: nat)
    requires Ranks(arcs, rank) && FollowsArcs(arcs, p) && i < |p|
    ensures RootOf(arcs, rank, p[i]) == RootOf(arcs, rank, p[0])
  {
    if i > 0 {
      PathKeepsRoot(arcs, rank, p, i - 1);
      assert IsArc(arcs, p[i - 1], p[i]);
    }
  }

  // Two paths from one vertex agree as far as both go.
  lemma {:induction false} PathsAgree(arcs: Arcs, p: seq<Vertex>, q: seq<Vertex>, i: nat, k: nat, t: nat)
    requires FollowsArcs(arcs, p) && FollowsArcs(arcs, q)
    requires i + t < |p| && k + t < |q| && p[i] == q[k]
    ensures p[i + t] == q[k + t]
    decreases t
  {
    if t > 0 {
      PathsAgree(arcs, p, q, i, k, t - 1);
      assert IsArc(arcs, p[i + t - 1], p[i + t]) && IsArc(arcs, q[k + t - 1], q[k + t]);
    }
  }

  // A path that ends at a root is at least as long as any other path from its start.
  lemma {:induction false} RootPathIsLongest(arcs: Arcs, p: seq<Vertex>, q: seq<Vertex>)
    requires FollowsArcs(arcs, p) && FollowsArcs(arcs, q)
    requires |p| > 0 && |q| > 0 && p[0] == q[0] && p[|p| - 1] !in arcs
    ensures |q| <= |p|
  {
    if |q| > |p| {
      assert IsArc(arcs, q[|p| - 1], q[|p|]);
      PathsAgree(arcs, p, q, 0, 0, |p| - 1);
    }
  }

  // ---- re-rooting ----

  // Arcs of p from index n on are turned round, the others are as in `orig`.
  ghost predicate TurnedFrom(orig: Arcs, arcs: Arcs, p: seq<Vertex>, n: nat)
    requires n < |p|
  {
    && (forall i :: 0 < i <= n ==> IsArc(arcs, p[i - 1], p[i]))
    && (forall i :: n < i < |p| ==> IsArc(arcs, p[i], p[i - 1]))
    && p[n] !in arcs
    && (forall x, y :: x !in p ==> (IsArc(arcs, x, y) <==> IsArc(orig, x, y)))
    && |arcs| == |orig|
  }

  lemma OneStepTurns(orig: Arcs, arcs: Arcs, p: seq<Vertex>, n: nat)
    requires 0 < n < |p| && Distinct(p) && TurnedFrom(orig, arcs, p, n)
    ensures TurnedFrom(orig, (arcs - {p[n - 1]})[p[n] := p[n - 1]], p, n - 1)
  {
    var a, b := p[n - 1], p[n];
    assert IsArc(arcs, a, b);
    var next := (arcs - {a})[b := a];
    assert next.Keys == arcs.Keys - {a} + {b};
    assert |next.Keys| == |arcs.Keys|;
    forall i | 0 < i <= n - 1
      ensures IsArc(next, p[i - 1], p[i])
    {
      assert IsArc(arcs, p[i - 1], p[i]);
    }
    forall i | n - 1 < i < |p|
      ensures IsArc(next, p[i], p[i - 1])
    {
      assert i > n ==> IsArc(arcs, p[i], p[i - 1]);
    }
    assert a in p && b in p;
    forall x, y | x !in p
      ensures IsArc(next, x, y) <==> IsArc(orig, x, y)
    {
      assert IsArc(next, x, y) <==> IsArc(arcs, x, y);
    }
  }

  // On a simple path that ends at a root, reverse_path turns exactly the arcs of the path,
  // makes its start a root, leaves every other arc alone and keeps the number of entries.
  lemma {:induction false} ReversalTurnsPath(orig: Arcs, arcs: Arcs, p: seq<Vertex>, n: nat)
    requires n < |p| && Distinct(p) && TurnedFrom(orig, arcs, p, n)
    ensures TurnedFrom(orig, ReverseArcs(arcs, p, n), p, 0)
    decreases n
  {
    if n > 0 {
      OneStepTurns(orig, arcs, p, n);
      ReversalTurnsPath(orig, (arcs - {p[n - 1]})[p[n] := p[n - 1]], p, n - 1);
    }
  }

  lemma ReversalReRoots(arcs: Arcs, p: seq<Vertex>)
    requires |p| > 0 && FollowsArcs(arcs, p) && Distinct(p) && p[|p| - 1] !in arcs
    ensures TurnedFrom(arcs, ReverseArcs(arcs, p, |p| - 1), p, 0)
    ensures forall a, b :: Adjacent(ReverseArcs(arcs, p, |p| - 1), a, b) <==> Adjacent(arcs, a, b)
  {
    ReversalTurnsPath(arcs, arcs, p, |p| - 1);
    TurningKeepsAdjacency(arcs, ReverseArcs(arcs, p, |p| - 1), p);
  }

  lemma TurningKeepsAdjacency(arcs: Arcs, turned: Arcs, p: seq<Vertex>)
    requires |p| > 0 && FollowsArcs(arcs, p) && Distinct(p) && p[|p| - 1] !in arcs
    requires TurnedFrom(arcs, turned, p, 0)
    ensures forall a, b :: Adjacent(turned, a, b) <==> Adjacent(arcs, a, b)
  {
    forall a, b
      ensures IsArc(arcs, a, b) ==> Adjacent(turned, a, b)
      ensures IsArc(turned, a, b) ==> Adjacent(arcs, a, b)
    {
      if a in p {
        var i :| 0 <= i < |p| && p[i] == a;
        if IsArc(arcs, a, b) {
          assert IsArc(arcs, p[i + 1 - 1], p[i + 1]);
          assert IsArc(turned, p[i + 1], p[i + 1 - 1]);
        }
        if IsArc(turned, a, b) {
          assert IsArc(turned, p[i], p[i - 1]);
          assert IsArc(arcs, p[i - 1], p[i]);
        }
      }
    }
  }

  lemma TurningKeepsAcyclic(arcs: Arcs, turned: Arcs, p: seq<Vertex>)
    requires Acyclic(arcs) && |p| > 0 && Distinct(p) && TurnedFrom(arcs, turned, p, 0)
    ensures Acyclic(turned)
  {
    var rank: Vertex -> nat :| Ranks(arcs, rank);
    var lifted: Vertex -> nat := (x: Vertex) => if x in p then PositionIn(p, x) else rank(x) + |p|;
    forall x | x in turned
      ensures lifted(turned[x]) < lifted(x)
    {
      if x in p {
        assert IsArc(turned, p[PositionIn(p, x)], p[PositionIn(p, x) - 1]);
      } else {
        assert IsArc(arcs, x, turned[x]);
      }
    }
    assert Ranks(turned, lifted);
  }

  // Hanging a root below a vertex of another tree keeps the forest.
  lemma LinkingKeepsAcyclic(arcs: Arcs, rank: Vertex -> nat, u: Vertex, v: Vertex)
    requires Ranks(arcs, rank) && u !in arcs && RootOf(arcs, rank, v) != u
    ensures Acyclic(arcs[u := v])
  {
    var lifted: Vertex -> nat := (x: Vertex) => rank(x) + if RootOf(arcs, rank, x) == u then rank(v) + 1 else 0;
    assert Ranks(arcs[u := v], lifted);
  }

  ghost predicate DirectedCycle(arcs: Arcs, c: seq<Vertex>) {
    |c| > 0 && forall i :: 0 <= i < |c| ==> IsArc(arcs, c[i], After(c, i))
  }

  ghost predicate HasDirectedCycle(arcs: Arcs) {
    exists c :: DirectedCycle(arcs, c)
  }

  // The arc to the highest vertex of a list is missing.
  lemma NoArcUp(arcs: Arcs, rank: Vertex -> nat, c: seq<Vertex>)
    requires Ranks(arcs, rank) && |c| > 0
    ensures !DirectedCycle(arcs, c)
  {
    var m := Highest(rank, c);
    var prev: nat := if m == 0 then |c| - 1 else m - 1;
    assert After(c, prev) == c[m] && !IsArc(arcs, c[prev], c[m]);
  }

  lemma AcyclicHasNone(arcs: Arcs)
    requires Acyclic(arcs)
    ensures !HasDirectedCycle(arcs)
  {
    var rank: Vertex -> nat :| Ranks(arcs, rank);
    forall c: seq<Vertex> | |c| > 0
      ensures !DirectedCycle(arcs, c)
    {
      NoArcUp(arcs, rank, c);
    }
  }

  // Hanging a root below a vertex of its own tree closes a directed cycle.
  lemma LinkingClosesCycle(arcs: Arcs, rank: Vertex -> nat, u: Vertex, v: Vertex)
    requires Ranks(arcs, rank) && u !in arcs && RootOf(arcs, rank, v) == u
    ensures HasDirectedCycle(arcs[u := v])
  {
    var c := PathFrom(arcs, v, |arcs| + 2);
    PathEndsAtRoot(arcs, v, |arcs| + 2);
    PathKeepsRoot(arcs, rank, c, |c| - 1);
    forall i | 0 <= i < |c|
      ensures IsArc(arcs[u := v], c[i], After(c, i))
    {
      assert i + 1 < |c| ==> IsArc(arcs, c[i + 1 - 1], c[i + 1]);
    }
    assert DirectedCycle(arcs[u := v], c);
  }

  // ---- trees have no cycles and one path between two vertices ----

  lemma {:induction false} Highest(rank: Vertex -> nat, c: seq<Vertex>) returns (m: nat)
    requires |c| > 0
    ensures m < |c| && forall i :: 0 <= i < |c| ==> rank(c[i]) <= rank(c[m])
  {
    if |c| == 1 {
      m := 0;
    } else {
      m := Highest(rank, c[..|c| - 1]);
      assert forall i :: 0 <= i < |c| - 1 ==> c[..|c| - 1][i] == c[i];
      if rank(c[m]) < rank(c[|c| - 1]) {
        m := |c| - 1;
      }
    }
  }

  function Before(c: seq<Vertex>, i: nat): Vertex
    requires i < |c|
  {
    c[if i == 0 then |c| - 1 else i - 1]
  }

  lemma HighestHasOneNeighbour(arcs: Arcs, rank: Vertex -> nat, c: seq<Vertex>, m: nat)
    requires Ranks(arcs, rank) && m < |c|
    requires forall i :: 0 <= i < |c| ==> rank(c[i]) <= rank(c[m])
    requires forall i :: 0 <= i < |c| ==> Adjacent(arcs, c[i], After(c, i))
    ensures Before(c, m) == After(c, m)
  {
    var before := if m == 0 then |c| - 1 else m - 1;
    assert Adjacent(arcs, c[before], After(c, before)) && After(c, before) == c[m];
    assert Adjacent(arcs, c[m], After(c, m));
  }

  lemma ForestHasNoCycle(arcs: Arcs, edges: seq<Edge>, c: seq<Vertex>)
    requires Acyclic(arcs)
    requires forall a, b :: Linked(edges, a, b) ==> Adjacent(arcs, a, b)
    ensures !SimpleCycle(edges, c)
  {
    if SimpleCycle(edges, c) {
      var rank: Vertex -> nat :| Ranks(arcs, rank);
      var m := Highest(rank, c);
      HighestHasOneNeighbour(arcs, rank, c, m);
    }
  }

  // A simple walk in a forest climbs for k steps and descends from there.
  lemma {:induction false} WalkClimbsThenDescends(arcs: Arcs, edges: seq<Edge>, w: seq<Vertex>) returns (k: nat)
    requires forall a, b :: Linked(edges, a, b) ==> Adjacent(arcs, a, b)
    requires IsWalk(edges, w) && Distinct(w)
    ensures k < |w|
    ensures FollowsArcs(arcs, w[..k + 1])
    ensures forall i :: k < i < |w| ==> IsArc(arcs, w[i], w[i - 1])
    decreases |w|
  {
    var n := |w| - 1;
    if n == 0 {
      return 0;
    }
    forall i | 0 < i < n
      ensures Linked(edges, w[..n][i - 1], w[..n][i])
    {
      assert w[..n][i - 1] == w[i - 1] && w[..n][i] == w[i];
    }
    k := WalkClimbsThenDescends(arcs, edges, w[..n]);
    assert w[..n][..k + 1] == w[..k + 1];
    assert forall i :: k < i < n ==> IsArc(arcs, w[..n][i], w[..n][i - 1]) && w[..n][i] == w[i];
    assert Linked(edges, w[n - 1], w[n]);
    if IsArc(arcs, w[n - 1], w[n]) {
      assert k < n - 1 ==> IsArc(arcs, w[..n][n - 1], w[..n][n - 2]);
      assert k == n - 1;
      forall i | 0 < i < |w|
        ensures IsArc(arcs, w[i - 1], w[i])
      {
        if i < n {
          assert IsArc(arcs, w[..k + 1][i - 1], w[..k + 1][i]);
        }
      }
      assert w[..n + 1] == w;
      k := n;
    } else {
      forall i | k < i < |w|
        ensures IsArc(arcs, w[i], w[i - 1])
      {
        if i < n {
          assert IsArc(arcs, w[..n][i], w[..n][i - 1]);
        }
      }
    }
  }

  // A simple walk from u to v is the tree path: up to where the two root paths first meet,
  // and down again.
  lemma SimpleWalkIsTreePath(arcs: Arcs, edges: seq<Edge>, w: seq<Vertex>,
                             pu: seq<Vertex>, pv: seq<Vertex>, a: nat, b: nat)
    requires Acyclic(arcs)
    requires forall x, y :: Linked(edges, x, y) ==> Adjacent(arcs, x, y)
    requires FollowsArcs(arcs, pu) && FollowsArcs(arcs, pv)
    requires |pu| > 0 && pu[|pu| - 1] !in arcs && |pv| > 0 && pv[|pv| - 1] !in arcs
    requires a < |pu| && b < |pv| && pu[a] == pv[b]
    requires forall i, k :: 0 <= i < a && 0 <= k < |pv| ==> pu[i] != pv[k]
    requires IsWalk(edges, w) && Distinct(w) && w[0] == pu[0] && w[|w| - 1] == pv[0]
    ensures |w| == 1 + a + b
    ensures w == Reversed(CycleVertices(pu, pv, a, b)[..a + 1]) + Reversed(pv[..b])
  {
    var k := WalkClimbsThenDescends(arcs, edges, w);
    var d := |w| - 1 - k;
    LegsFollowPaths(arcs, w, pu, pv, k);
    PathIsSimple(arcs, pv);
    assert w[k] == pu[k] == pv[d];
    assert k + 1 < |w| ==> w[k + 1] == pv[d - 1];
    TurnsWhereTheyMeet(arcs, pu, pv, a, b, k, d);
    assert a == k;
    WalkFromLegs(w, pu, pv, a, b);
  }

  lemma WalkFromLegs(w: seq<Vertex>, pu: seq<Vertex>, pv: seq<Vertex>, a: nat, b: nat)
    requires a < |pu| && b < |pv| && |w| == 1 + a + b
    requires forall i :: 0 <= i <= a ==> w[i] == pu[i]
    requires forall i :: a <= i < |w| ==> w[i] == pv[|w| - 1 - i]
    ensures w == Reversed(CycleVertices(pu, pv, a, b)[..a + 1]) + Reversed(pv[..b])
  {
    assert w == pu[..a + 1] + Reversed(pv[..b]);
    assert Reversed(CycleVertices(pu, pv, a, b)[..a + 1]) == pu[..a + 1];
  }

  // The climb of the walk is a start of pu, its descent read backwards a start of pv.
  lemma LegsFollowPaths(arcs: Arcs, w: seq<Vertex>, pu: seq<Vertex>, pv: seq<Vertex>, k: nat)
    requires FollowsArcs(arcs, pu) && FollowsArcs(arcs, pv)
    requires |pu| > 0 && pu[|pu| - 1] !in arcs && |pv| > 0 && pv[|pv| - 1] !in arcs
    requires k < |w| && w[0] == pu[0] && w[|w| - 1] == pv[0]
    requires FollowsArcs(arcs, w[..k + 1])
    requires forall i :: k < i < |w| ==> IsArc(arcs, w[i], w[i - 1])
    ensures k < |pu| && forall i :: 0 <= i <= k ==> w[i] == pu[i]
    ensures |w| - 1 - k < |pv| && forall i :: k <= i < |w| ==> w[i] == pv[|w| - 1 - i]
  {
    var up, down := w[..k + 1], Reversed(w[k..]);
    forall i | 0 < i < |down|
      ensures IsArc(arcs, down[i - 1], down[i])
    {
      var n := |w| - i;
      assert down[i - 1] == w[n] && down[i] == w[n - 1];
    }
    RootPathIsLongest(arcs, pu, up);
    RootPathIsLongest(arcs, pv, down);
    forall i | 0 <= i <= k
      ensures w[i] == pu[i]
    {
      PathsAgree(arcs, up, pu, 0, 0, i);
    }
    forall i | k <= i < |w|
      ensures w[i] == pv[|w| - 1 - i]
    {
      PathsAgree(arcs, down, pv, 0, 0, |w| - 1 - i);
      assert down[|w| - 1 - i] == w[i];
    }
  }

  lemma TurnsWhereTheyMeet(arcs: Arcs, pu: seq<Vertex>, pv: seq<Vertex>, a: nat, b: nat, k: nat, d: nat)
    requires FollowsArcs(arcs, pu) && FollowsArcs(arcs, pv) && Distinct(pv)
    requires |pu| > 0 && pu[|pu| - 1] !in arcs && |pv| > 0 && pv[|pv| - 1] !in arcs
    requires a <= k < |pu| && b < |pv| && d < |pv| && pu[a] == pv[b] && pu[k] == pv[d]
    ensures d == b + k - a
    ensures a < k ==> d > 0 && pu[k - 1] == pv[d - 1]
  {
    RootPathIsLongest(arcs, pv[b..], pu[a..]) by {
      forall i | 0 < i < |pv[b..]|
        ensures IsArc(arcs, pv[b..][i - 1], pv[b..][i])
      {
        assert IsArc(arcs, pv[b + i - 1], pv[b + i]);
      }
      forall i | 0 < i < |pu[a..]|
        ensures IsArc(arcs, pu[a..][i - 1], pu[a..][i])
      {
        assert IsArc(arcs, pu[a + i - 1], pu[a + i]);
      }
    }
    PathsAgree(arcs, pu, pv, a, b, k - a);
    if a < k {
      PathsAgree(arcs, pu, pv, a, b, k - a - 1);
    }
  }
}
