// Facts about sequences that several components share.

module Sequences {

  ghost predicate Distinct<T>(s: seq<T>) {
    forall i, j :: 0 <= i < j < |s| ==> s[i] != s[j]
  }

  function Front<T>(s: seq<T>): seq<T>
    requires |s| > 0
  {
    s[..|s| - 1]
  }

  function Last<T>(s: seq<T>): T
    requires |s| > 0
  {
    s[|s| - 1]
  }

  lemma FrontAndLast<T>(s: seq<T>)
    requires |s| > 0
    ensures s == Front(s) + [Last(s)]
  {
  }

  lemma FrontOfCons<T>(x: T, s: seq<T>, t: seq<T>)
    requires |s| > 0
    ensures Front([x] + s) == [x] + Front(s) && Last([x] + s) == Last(s)
    ensures [x] + (Front(s) + t) == Front([x] + s) + t
  {
  }

  function Reversed<T>(s: seq<T>): (r: seq<T>)
    ensures |r| == |s|
    ensures forall i :: 0 <= i < |s| ==> r[i] == s[|s| - 1 - i]
  {
    if |s| == 0 then [] else Reversed(s[1..]) + [s[0]]
  }

  lemma {:induction false} ReversedMultiset<T>(s: seq<T>)
    ensures multiset(Reversed(s)) == multiset(s)
  {
    if |s| > 0 {
      ReversedMultiset(s[1..]);
      assert s == [s[0]] + s[1..];
    }
  }

  lemma {:induction false} DistinctFits<T>(s: seq<T>, keys: set<T>)
    requires Distinct(s) && forall x :: x in s ==> x in keys
    ensures |s| <= |keys|
  {
    if |s| > 0 {
      var last := s[|s| - 1];
      var rest := s[..|s| - 1];
      assert last in s;
      forall x | x in rest
        ensures x in keys - {last}
      {
        var i :| 0 <= i < |rest| && rest[i] == x;
        assert s[i] == x && x in s;
      }
      DistinctFits(rest, keys - {last});
    }
  }

  ghost function PositionIn<T>(s: seq<T>, x: T): (i: nat)
    requires x in s
    ensures i < |s| && s[i] == x
  {
    var i :| 0 <= i < |s| && s[i] == x;
    i
  }

  lemma SameMembers<T>(s: seq<T>, t: seq<T>)
    requires multiset(s) == multiset(t)
    ensures forall x :: x in s <==> x in t
  {
    forall x
      ensures x in s <==> x in t
    {
      assert x in s <==> x in multiset(s);
      assert x in t <==> x in multiset(t);
    }
  }

  // Two duplicate-free lists of the same elements are permutations of each other.
  lemma {:induction false} DistinctSameMembers<T>(s: seq<T>, t: seq<T>)
    requires Distinct(s) && Distinct(t)
    requires forall x :: x in s <==> x in t
    ensures multiset(s) == multiset(t)
  {
    forall x
      ensures multiset(s)[x] == multiset(t)[x]
    {
      CountInDistinct(s, x);
      CountInDistinct(t, x);
    }
  }

  lemma {:induction false} CountInDistinct<T>(s: seq<T>, x: T)
    requires Distinct(s)
    ensures multiset(s)[x] == if x in s then 1 else 0
  {
    if |s| > 0 {
      var n := |s| - 1;
      assert s == s[..n] + [s[n]];
      CountInDistinct(s[..n], x);
    }
  }

  function Mapped<T, R>(f: T -> R, s: seq<T>): (r: seq<R>)
    ensures |r| == |s| && forall i :: 0 <= i < |s| ==> r[i] == f(s[i])
  {
    seq(|s|, i requires 0 <= i < |s| => f(s[i]))
  }

  lemma MappedConcat<T, R>(f: T -> R, s: seq<T>, t: seq<T>)
    ensures Mapped(f, s + t) == Mapped(f, s) + Mapped(f, t)
  {
  }

  lemma {:induction false} MappedPermutation<T, R>(f: T -> R, s: seq<T>, t: seq<T>)
    requires multiset(s) == multiset(t)
    ensures multiset(Mapped(f, s)) == multiset(Mapped(f, t))
  {
    if |s| == 0 {
      assert |multiset(t)| == 0;
    } else {
      var x, rest := s[0], s[1..];
      assert s == [x] + rest;
      assert x in multiset(t);
      var i := PositionIn(t, x);
      var left, right := t[..i], t[i + 1..];
      assert t == left + [x] + right;
      assert multiset(t) == multiset(left) + multiset{x} + multiset(right);
      assert multiset(left + right) == multiset(t) - multiset{x};
      assert multiset(rest) == multiset(s) - multiset{x};
      MappedPermutation(f, rest, left + right);
      MappedConcat(f, [x], rest);
      MappedConcat(f, left, right);
      MappedConcat(f, left + [x], right);
      MappedConcat(f, left, [x]);
    }
  }
}
