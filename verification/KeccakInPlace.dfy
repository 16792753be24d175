// The two forms of the permutation on an array of 25 lanes: the unrolled one of keccak.cpp
// and the table-driven one of cn-gpu.cpp.

module KeccakInPlace {
  import opened KeccakSpec

  // ---- keccak.cpp ----

  // The X macro: t is xored into the five lanes of column i.
  method XorColumn<W>(st: array<W>, o: LaneOps<W>, i: nat, t: W)
    requires st.Length == 25 && i < 5
    modifies st
    ensures forall k :: 0 <= k < 25 ==> st[k] == if k % 5 == i then o.xor(old(st[k]), t) else old(st[k])
  {
    st[i] := o.xor(st[i], t);
    st[i + 5] := o.xor(st[i + 5], t);
    st[i + 10] := o.xor(st[i + 10], t);
    st[i + 15] := o.xor(st[i + 15], t);
    st[i + 20] := o.xor(st[i + 20], t);
  }

  method Parities<W>(st: array<W>, o: LaneOps<W>) returns (bc: seq<W>)
    requires st.Length == 25
    ensures |bc| == 5 && forall x :: 0 <= x < 5 ==> bc[x] == ColumnParity(o, st[..], x)
  {
    var bc0 := o.xor(o.xor(o.xor(o.xor(st[0], st[5]), st[10]), st[15]), st[20]);
    var bc1 := o.xor(o.xor(o.xor(o.xor(st[1], st[6]), st[11]), st[16]), st[21]);
    var bc2 := o.xor(o.xor(o.xor(o.xor(st[2], st[7]), st[12]), st[17]), st[22]);
    var bc3 := o.xor(o.xor(o.xor(o.xor(st[3], st[8]), st[13]), st[18]), st[23]);
    var bc4 := o.xor(o.xor(o.xor(o.xor(st[4], st[9]), st[14]), st[19]), st[24]);
    bc := [bc0, bc1, bc2, bc3, bc4];
  }

  method ThetaUnrolled<W>(st: array<W>, o: LaneOps<W>)
    requires st.Length == 25
    modifies st
    ensures st[..] == Theta(o, old(st[..]))
  {
    ghost var s := st[..];
    var bc := Parities(st, o);
    for i := 0 to 5
      invariant forall k :: 0 <= k < 25 ==> st[k] == if k % 5 < i then o.xor(s[k], ThetaEffect(o, s, k % 5)) else s[k]
    {
      var t := o.xor(bc[(i + 4) % 5], o.rotl(bc[(i + 1) % 5], 1));
      XorColumn(st, o, i, t);
    }
  }

  // The 24 assignments of the unrolled rho and pi, eight at a time.
  method MoveFirst<W>(st: array<W>, o: LaneOps<W>)
    requires st.Length == 25
    modifies st
    ensures st[1] == o.rotl(old(st[6]), 44)
    ensures st[2] == o.rotl(old(st[12]), 43)
    ensures st[6] == o.rotl(old(st[9]), 20)
    ensures st[9] == o.rotl(old(st[22]), 61)
    ensures st[12] == o.rotl(old(st[13]), 25)
    ensures st[14] == o.rotl(old(st[20]), 18)
    ensures st[20] == o.rotl(old(st[2]), 62) && st[22] == o.rotl(old(st[14]), 39)
    ensures st[0] == old(st[0]) && st[3] == old(st[3]) && st[4] == old(st[4]) && st[5] == old(st[5])
    ensures st[7] == old(st[7]) && st[8] == old(st[8]) && st[10] == old(st[10]) && st[11] == old(st[11])
    ensures st[13] == old(st[13]) && st[15] == old(st[15]) && st[16] == old(st[16]) && st[17] == old(st[17])
    ensures st[18] == old(st[18]) && st[19] == old(st[19]) && st[21] == old(st[21]) && st[23] == old(st[23])
    ensures st[24] == old(st[24])
  {
    st[1] := o.rotl(st[6], 44);
    st[6] := o.rotl(st[9], 20);
    st[9] := o.rotl(st[22], 61);
    st[22] := o.rotl(st[14], 39);
    st[14] := o.rotl(st[20], 18);
    st[20] := o.rotl(st[2], 62);
    st[2] := o.rotl(st[12], 43);
    st[12] := o.rotl(st[13], 25);
  }

  // The next eight.
  method MoveSecond<W>(st: array<W>, o: LaneOps<W>)
    requires st.Length == 25
    modifies st
    ensures st[4] == o.rotl(old(st[24]), 14)
    ensures st[8] == o.rotl(old(st[16]), 45)
    ensures st[13] == o.rotl(old(st[19]), 8)
    ensures st[15] == o.rotl(old(st[4]), 27)
    ensures st[19] == o.rotl(old(st[23]), 56)
    ensures st[21] == o.rotl(old(st[8]), 55)
    ensures st[23] == o.rotl(old(st[15]), 41) && st[24] == o.rotl(old(st[21]), 2)
    ensures st[0] == old(st[0]) && st[1] == old(st[1]) && st[2] == old(st[2]) && st[3] == old(st[3])
    ensures st[5] == old(st[5]) && st[6] == old(st[6]) && st[7] == old(st[7]) && st[9] == old(st[9])
    ensures st[10] == old(st[10]) && st[11] == old(st[11]) && st[12] == old(st[12]) && st[14] == old(st[14])
    ensures st[16] == old(st[16]) && st[17] == old(st[17]) && st[18] == old(st[18]) && st[20] == old(st[20])
    ensures st[22] == old(st[22])
  {
    st[13] := o.rotl(st[19], 8);
    st[19] := o.rotl(st[23], 56);
    st[23] := o.rotl(st[15], 41);
    st[15] := o.rotl(st[4], 27);
    st[4] := o.rotl(st[24], 14);
    st[24] := o.rotl(st[21], 2);
    st[21] := o.rotl(st[8], 55);
    st[8] := o.rotl(st[16], 45);
  }

  // The last eight, the very last from the copy of lane 1.
  method MoveThird<W>(st: array<W>, o: LaneOps<W>, t: W)
    requires st.Length == 25
    modifies st
    ensures st[3] == o.rotl(old(st[18]), 21)
    ensures st[5] == o.rotl(old(st[3]), 28)
    ensures st[7] == o.rotl(old(st[10]), 3)
    ensures st[10] == o.rotl(t, 1) && st[11] == o.rotl(old(st[7]), 6) && st[16] == o.rotl(old(st[5]), 36)
    ensures st[17] == o.rotl(old(st[11]), 10) && st[18] == o.rotl(old(st[17]), 15)
    ensures st[0] == old(st[0]) && st[1] == old(st[1]) && st[2] == old(st[2]) && st[4] == old(st[4])
    ensures st[6] == old(st[6]) && st[8] == old(st[8]) && st[9] == old(st[9]) && st[12] == old(st[12])
    ensures st[13] == old(st[13]) && st[14] == old(st[14]) && st[15] == old(st[15]) && st[19] == old(st[19])
    ensures st[20] == old(st[20]) && st[21] == old(st[21]) && st[22] == old(st[22]) && st[23] == old(st[23])
    ensures st[24] == old(st[24])
  {
    st[16] := o.rotl(st[5], 36);
    st[5] := o.rotl(st[3], 28);
    st[3] := o.rotl(st[18], 21);
    st[18] := o.rotl(st[17], 15);
    st[17] := o.rotl(st[11], 10);
    st[11] := o.rotl(st[7], 6);
    st[7] := o.rotl(st[10], 3);
    st[10] := o.rotl(t, 1);
  }

  // What they do to the lower lanes and to the upper ones.
  ghost predicate LowerMoved<W>(o: LaneOps<W>, s: seq<W>, r: seq<W>)
    requires |s| == |r| == 25
  {
    && r[0] == s[0]
    && r[1] == o.rotl(s[6], 44) && r[2] == o.rotl(s[12], 43) && r[3] == o.rotl(s[18], 21)
    && r[4] == o.rotl(s[24], 14) && r[5] == o.rotl(s[3], 28) && r[6] == o.rotl(s[9], 20)
    && r[7] == o.rotl(s[10], 3) && r[8] == o.rotl(s[16], 45) && r[9] == o.rotl(s[22], 61)
    && r[10] == o.rotl(s[1], 1) && r[11] == o.rotl(s[7], 6) && r[12] == o.rotl(s[13], 25)
  }

  ghost predicate UpperMoved<W>(o: LaneOps<W>, s: seq<W>, r: seq<W>)
    requires |s| == |r| == 25
  {
    && r[13] == o.rotl(s[19], 8) && r[14] == o.rotl(s[20], 18) && r[15] == o.rotl(s[4], 27)
    && r[16] == o.rotl(s[5], 36) && r[17] == o.rotl(s[11], 10) && r[18] == o.rotl(s[17], 15)
    && r[19] == o.rotl(s[23], 56) && r[20] == o.rotl(s[2], 62) && r[21] == o.rotl(s[8], 55)
    && r[22] == o.rotl(s[14], 39) && r[23] == o.rotl(s[15], 41) && r[24] == o.rotl(s[21], 2)
  }

  lemma LowerLanes<W>(o: LaneOps<W>, s: seq<W>, r: seq<W>)
    requires |s| == |r| == 25 && LowerMoved(o, s, r)
    ensures r[0] == RhoPi(o, s)[0] && r[1] == RhoPi(o, s)[1] && r[2] == RhoPi(o, s)[2] && r[3] == RhoPi(o, s)[3]
    ensures r[4] == RhoPi(o, s)[4] && r[5] == RhoPi(o, s)[5] && r[6] == RhoPi(o, s)[6] && r[7] == RhoPi(o, s)[7]
    ensures r[8] == RhoPi(o, s)[8] && r[9] == RhoPi(o, s)[9] && r[10] == RhoPi(o, s)[10]
    ensures r[11] == RhoPi(o, s)[11] && r[12] == RhoPi(o, s)[12]
  {
  }

  lemma UpperLanes<W>(o: LaneOps<W>, s: seq<W>, r: seq<W>)
    requires |s| == |r| == 25 && UpperMoved(o, s, r)
    ensures r[13] == RhoPi(o, s)[13] && r[14] == RhoPi(o, s)[14] && r[15] == RhoPi(o, s)[15] && r[16] == RhoPi(o, s)[16]
    ensures r[17] == RhoPi(o, s)[17] && r[18] == RhoPi(o, s)[18] && r[19] == RhoPi(o, s)[19] && r[20] == RhoPi(o, s)[20]
    ensures r[21] == RhoPi(o, s)[21] && r[22] == RhoPi(o, s)[22] && r[23] == RhoPi(o, s)[23] && r[24] == RhoPi(o, s)[24]
  {
  }

  // Together they are rho and pi.
  lemma AllMoved<W>(o: LaneOps<W>, s: seq<W>, r: seq<W>)
    requires |s| == |r| == 25 && LowerMoved(o, s, r) && UpperMoved(o, s, r)
    ensures r == RhoPi(o, s)
  {
    LowerLanes(o, s, r);
    UpperLanes(o, s, r);
    SameLanes(r, RhoPi(o, s));
  }

  method RhoPiUnrolled<W>(st: array<W>, o: LaneOps<W>)
    requires st.Length == 25
    modifies st
    ensures st[..] == RhoPi(o, old(st[..]))
  {
    var t := st[1];
    MoveFirst(st, o);
    MoveSecond(st, o);
    MoveThird(st, o, t);
    AllMoved(o, old(st[..]), st[..]);
  }

  lemma RowAt(row: nat, x: nat)
    requires row < 5 && x < 5
    ensures RowNext(5 * row + x, 1) == 5 * row + (if x == 4 then 0 else x + 1)
    ensures RowNext(5 * row + x, 2) == 5 * row + (if x >= 3 then x - 3 else x + 2)
  {
    assert (5 * row + x) / 5 == row;
  }

  lemma RowOf(j: nat)
    requires j % 5 == 0 && j < 25
    ensures RowNext(j, 1) == j + 1 && RowNext(j, 2) == j + 2
    ensures RowNext(j + 1, 1) == j + 2 && RowNext(j + 1, 2) == j + 3
    ensures RowNext(j + 2, 1) == j + 3 && RowNext(j + 2, 2) == j + 4
    ensures RowNext(j + 3, 1) == j + 4 && RowNext(j + 3, 2) == j
    ensures RowNext(j + 4, 1) == j && RowNext(j + 4, 2) == j + 1
  {
    RowAt(j / 5, 0);
    RowAt(j / 5, 1);
    RowAt(j / 5, 2);
    RowAt(j / 5, 3);
    RowAt(j / 5, 4);
  }

  lemma FromEach<W>(o: LaneOps<W>, s: seq<W>, r: seq<W>, j: nat)
    requires |s| == |r| == 25 && j + 5 <= 25
    requires r[j] == ChiAt(o, s, j) && r[j + 1] == ChiAt(o, s, j + 1) && r[j + 2] == ChiAt(o, s, j + 2)
    requires r[j + 3] == ChiAt(o, s, j + 3) && r[j + 4] == ChiAt(o, s, j + 4)
    ensures forall k :: j <= k < j + 5 ==> r[k] == ChiAt(o, s, k)
  {
    forall k | j <= k < j + 5
      ensures r[k] == ChiAt(o, s, k)
    {
      assert k == j || k == j + 1 || k == j + 2 || k == j + 3 || k == j + 4;
    }
  }

  // One row of chi with two saved lanes, as for the first four rows.
  method ChiRow<W>(st: array<W>, o: LaneOps<W>, j: nat)
    requires st.Length == 25 && j % 5 == 0 && j < 25
    modifies st
    ensures forall k :: 0 <= k < 25 ==> st[k] == if j <= k < j + 5 then ChiAt(o, old(st[..]), k) else old(st[k])
  {
    ghost var before := st[..];
    var bc0, bc1 := st[j], st[j + 1];
    st[j] := o.chi(st[j], st[j + 1], st[j + 2]);
    st[j + 1] := o.chi(st[j + 1], st[j + 2], st[j + 3]);
    st[j + 2] := o.chi(st[j + 2], st[j + 3], st[j + 4]);
    st[j + 3] := o.chi(st[j + 3], st[j + 4], bc0);
    st[j + 4] := o.chi(st[j + 4], bc0, bc1);
    RowIsChi(o, before, st[..], j);
  }

  // The last row, with all five lanes saved.
  method ChiLastRow<W>(st: array<W>, o: LaneOps<W>)
    requires st.Length == 25
    modifies st
    ensures st[20] == o.chi(old(st[20]), old(st[21]), old(st[22]))
    ensures st[21] == o.chi(old(st[21]), old(st[22]), old(st[23]))
    ensures st[22] == o.chi(old(st[22]), old(st[23]), old(st[24]))
    ensures st[23] == o.chi(old(st[23]), old(st[24]), old(st[20]))
    ensures st[24] == o.chi(old(st[24]), old(st[20]), old(st[21]))
    ensures forall k :: 0 <= k < 20 ==> st[k] == old(st[k])
  {
    var bc0, bc1, bc2, bc3, bc4 := st[20], st[21], st[22], st[23], st[24];
    st[20] := o.chi(st[20], bc1, bc2);
    st[21] := o.chi(st[21], bc2, bc3);
    st[22] := o.chi(st[22], bc3, bc4);
    st[23] := o.chi(st[23], bc4, bc0);
    st[24] := o.chi(st[24], bc0, bc1);
  }

  lemma RowIsChi<W>(o: LaneOps<W>, s: seq<W>, r: seq<W>, j: nat)
    requires |s| == |r| == 25 && j % 5 == 0 && j < 25
    requires r[j] == o.chi(s[j], s[j + 1], s[j + 2]) && r[j + 1] == o.chi(s[j + 1], s[j + 2], s[j + 3])
    requires r[j + 2] == o.chi(s[j + 2], s[j + 3], s[j + 4]) && r[j + 3] == o.chi(s[j + 3], s[j + 4], s[j])
    requires r[j + 4] == o.chi(s[j + 4], s[j], s[j + 1])
    ensures forall k :: j <= k < j + 5 ==> r[k] == ChiAt(o, s, k)
  {
    RowOf(j);
    assert r[j] == ChiAt(o, s, j) && r[j + 1] == ChiAt(o, s, j + 1) && r[j + 2] == ChiAt(o, s, j + 2);
    assert r[j + 3] == ChiAt(o, s, j + 3) && r[j + 4] == ChiAt(o, s, j + 4);
    FromEach(o, s, r, j);
  }

  method ChiUnrolled<W>(st: array<W>, o: LaneOps<W>)
    requires st.Length == 25
    modifies st
    ensures st[..] == Chi(o, old(st[..]))
  {
    ghost var s := st[..];
    for row := 0 to 4
      invariant forall k :: 0 <= k < 25 ==> st[k] == if k < 5 * row then ChiAt(o, s, k) else s[k]
    {
      ghost var now := st[..];
      ChiRow(st, o, 5 * row);
      ChiInRow(o, s, now, 5 * row);
    }
    ghost var now := st[..];
    ChiLastRow(st, o);
    RowIsChi(o, now, st[..], 20);
    ChiInRow(o, s, now, 20);
  }

  method IotaInPlace<W>(st: array<W>, o: LaneOps<W>, rc: W)
    requires st.Length == 25
    modifies st
    ensures st[..] == Iota(o, old(st[..]), rc)
  {
    st[0] := o.xor(st[0], rc);
  }

  method RoundUnrolled<W>(st: array<W>, o: LaneOps<W>, rc: W)
    requires st.Length == 25
    modifies st
    ensures st[..] == Round(o, old(st[..]), rc)
  {
    ThetaUnrolled(st, o);
    RhoPiUnrolled(st, o);
    ChiUnrolled(st, o);
    IotaInPlace(st, o, rc);
  }

  method Keccakf<W>(st: array<W>, o: LaneOps<W>, rndc: seq<W>, rounds: nat)
    requires st.Length == 25 && rounds <= |rndc|
    modifies st
    ensures st[..] == Permute(o, old(st[..]), rndc, rounds)
  {
    for round := 0 to rounds
      invariant st[..] == Permute(o, old(st[..]), rndc, round)
    {
      RoundUnrolled(st, o, rndc[round]);
    }
  }

  // ---- cn-gpu.cpp ----

  // The two tables of the loop form.
  function Rotc(k: nat): (r: nat)
    ensures r < 64
  {
    match k
    case 0 => 1 case 1 => 3 case 2 => 6 case 3 => 10 case 4 => 15 case 5 => 21
    case 6 => 28 case 7 => 36 case 8 => 45 case 9 => 55 case 10 => 2 case 11 => 14
    case 12 => 27 case 13 => 41 case 14 => 56 case 15 => 8 case 16 => 25 case 17 => 43
    case 18 => 62 case 19 => 18 case 20 => 39 case 21 => 61 case 22 => 20 case 23 => 44
    case _ => 0
  }

  function Piln(k: nat): (r: nat)
    ensures r < 25
  {
    match k
    case 0 => 10 case 1 => 7 case 2 => 11 case 3 => 17 case 4 => 18 case 5 => 3
    case 6 => 5 case 7 => 16 case 8 => 8 case 9 => 21 case 10 => 24 case 11 => 4
    case 12 => 15 case 13 => 23 case 14 => 19 case 15 => 13 case 16 => 12 case 17 => 2
    case 18 => 20 case 19 => 14 case 20 => 22 case 21 => 9 case 22 => 6 case 23 => 1
    case _ => 0
  }

  // The lane the walk starts step i from.
  function WalkAt(i: nat): (r: nat)
    ensures r < 25
  {
    if i == 0 then 1 else Piln(i - 1)
  }

  // When the walk reaches a lane.
  function WalkedAt(j: nat): (r: nat)
  {
    match j
    case 0 => 25 case 1 => 23 case 2 => 17 case 3 => 5 case 4 => 11 case 5 => 6
    case 6 => 22 case 7 => 1 case 8 => 8 case 9 => 21 case 10 => 0 case 11 => 2
    case 12 => 16 case 13 => 15 case 14 => 19 case 15 => 12 case 16 => 7 case 17 => 3
    case 18 => 4 case 19 => 14 case 20 => 18 case 21 => 9 case 22 => 20 case 23 => 13
    case 24 => 10
    case _ => 25
  }

  lemma WalkStepEarly(i: nat)
    requires i < 12
    ensures Piln(i) != 0 && PiSource(Piln(i)) == WalkAt(i) && WalkedAt(Piln(i)) == i
  {
  }

  lemma WalkStepLate(i: nat)
    requires 12 <= i < 24
    ensures Piln(i) != 0 && PiSource(Piln(i)) == WalkAt(i) && WalkedAt(Piln(i)) == i
  {
  }

  lemma WalkStep(i: nat)
    requires i < 24
    ensures Piln(i) != 0 && PiSource(Piln(i)) == WalkAt(i) && WalkedAt(Piln(i)) == i
  {
    if i < 12 {
      WalkStepEarly(i);
    } else {
      WalkStepLate(i);
    }
  }

  lemma WalkMove<W>(o: LaneOps<W>, s: seq<W>, i: nat)
    requires i < 24 && |s| == 25
    ensures Moved(o, s, Piln(i)) == o.rotl(s[WalkAt(i)], Rotc(i))
  {
    WalkStep(i);
  }

  lemma AllWalked(j: nat)
    requires 0 < j < 25
    ensures WalkedAt(j) < 24 && Piln(WalkedAt(j)) == j
  {
  }

  lemma PilnWalksEarly(i: nat)
    requires i < 12
    ensures Piln(i) == WalkNext(WalkAt(i))
  {
  }

  lemma PilnWalksLate(i: nat)
    requires 12 <= i < 23
    ensures Piln(i) == WalkNext(WalkAt(i))
  {
  }

  lemma PilnWalks(i: nat)
    requires i < 23
    ensures Piln(i) == WalkNext(WalkAt(i))
  {
    if i < 12 {
      PilnWalksEarly(i);
    } else {
      PilnWalksLate(i);
    }
  }

  lemma RotcNext(i: nat)
    requires 0 < i < 24
    ensures Rotc(i) == (Rotc(i - 1) + i + 1) % 64
  {
  }

  // The tables are the walk of the standard and its offsets (t + 1)(t + 2) / 2.
  lemma {:induction false} PilnIsWalk(t: nat)
    requires 0 < t < 24
    ensures WalkLane(t) == Piln(t - 1)
  {
    if t > 1 {
      PilnIsWalk(t - 1);
    }
    PilnWalks(t - 1);
  }

  // An offset, and the one before it, as residues of the sum kept without them.
  lemma NextOffset(t: nat, sum: nat)
    requires 0 < t < 24 && Rotc(t - 1) == sum % 64
    ensures Rotc(t) == (sum + t + 1) % 64
  {
    RotcNext(t);
  }

  lemma {:induction false} TriangleOffset(t: nat)
    requires t < 24
    ensures Rotc(t) == Triangle(t) % 64
  {
    if t == 0 {
      assert Triangle(0) == 1;
    } else {
      TriangleOffset(t - 1);
      NextOffset(t, Triangle(t - 1));
    }
  }

  lemma RotcIsTriangle(t: nat)
    requires t < 24
    ensures Rotc(t) == (t + 1) * (t + 2) / 2 % 64
  {
    TriangleOffset(t);
    TriangleFormula(t);
  }

  lemma WalkRotation(t: nat)
    requires t < 24
    ensures Rho(WalkAt(t)) == Rotc(t)
  {
  }

  // The rotations of the specification are those the standard derives from the walk.
  lemma RhoIsStandard(t: nat)
    requires t < 24
    ensures Rho(WalkLane(t)) == (t + 1) * (t + 2) / 2 % 64
  {
    WalkRotation(t);
    RotcIsTriangle(t);
    if t > 0 {
      PilnIsWalk(t);
    }
  }

  method ThetaFused<W>(s: array<W>, o: LaneOps<W>)
    requires s.Length == 25
    modifies s
    ensures s[..] == Theta(o, old(s[..]))
  {
    ghost var before := s[..];
    var c := Parities(s, o);
    var bc := [o.xor(c[0], o.rotl(c[2], 1)), o.xor(c[1], o.rotl(c[3], 1)), o.xor(c[2], o.rotl(c[4], 1)),
               o.xor(c[3], o.rotl(c[0], 1)), o.xor(c[4], o.rotl(c[1], 1))];
    assert forall x :: 0 <= x < 5 ==> bc[(x + 4) % 5] == ThetaEffect(o, before, x);
    for i := 0 to 5
      invariant forall k :: 0 <= k < 25 ==>
        s[k] == if k % 5 < i then o.xor(before[k], ThetaEffect(o, before, k % 5)) else before[k]
    {
      XorColumn(s, o, i, bc[(i + 4) % 5]);
    }
  }

  method RhoPiLoop<W>(s: array<W>, o: LaneOps<W>)
    requires s.Length == 25
    modifies s
    ensures s[..] == RhoPi(o, old(s[..]))
  {
    ghost var before := s[..];
    var t := s[1];
    for i := 0 to 24
      invariant forall j :: 0 < j < 25 ==> s[j] == if WalkedAt(j) < i then Moved(o, before, j) else before[j]
      invariant s[0] == before[0]
      invariant t == before[WalkAt(i)]
    {
      WalkStep(i);
      WalkMove(o, before, i);
      var bc0 := s[Piln(i)];
      s[Piln(i)] := o.rotl(t, Rotc(i));
      t := bc0;
      forall j | 0 < j < 25 && WalkedAt(j) == i
        ensures j == Piln(i)
      {
        AllWalked(j);
      }
    }
    forall j | 0 < j < 25
      ensures s[j] == Moved(o, before, j)
    {
      AllWalked(j);
    }
  }

  // chi written with bitselect.
  ghost predicate SelectIsChi<W(!new)>(o: LaneOps<W>) {
    forall x, y, z :: o.select(o.xor(x, z), x, y) == o.chi(x, y, z)
  }

  function BitSelect<W(!new)>(o: LaneOps<W>, x: W, y: W, z: W): (r: W)
    requires SelectIsChi(o)
    ensures r == o.chi(x, y, z)
  {
    o.select(o.xor(x, z), x, y)
  }

  method ChiSelect<W(!new)>(s: array<W>, o: LaneOps<W>)
    requires s.Length == 25 && SelectIsChi(o)
    modifies s
    ensures s[..] == Chi(o, old(s[..]))
  {
    ghost var before := s[..];
    var i := 0;
    while i < 25
      invariant 0 <= i <= 25 && i % 5 == 0
      invariant forall k :: 0 <= k < 25 ==> s[k] == if k < i then ChiAt(o, before, k) else before[k]
    {
      ghost var now := s[..];
      ChiSelectRow(s, o, i);
      ChiInRow(o, before, now, i);
      i := i + 5;
    }
  }

  method ChiSelectRow<W(!new)>(s: array<W>, o: LaneOps<W>, i: nat)
    requires s.Length == 25 && SelectIsChi(o) && i % 5 == 0 && i < 25
    modifies s
    ensures forall k :: 0 <= k < 25 ==> s[k] == if i <= k < i + 5 then ChiAt(o, old(s[..]), k) else old(s[k])
  {
    ghost var before := s[..];
    var tmp1, tmp2 := s[i], s[i + 1];
    s[i] := BitSelect(o, s[i], s[i + 1], s[i + 2]);
    s[i + 1] := BitSelect(o, s[i + 1], s[i + 2], s[i + 3]);
    s[i + 2] := BitSelect(o, s[i + 2], s[i + 3], s[i + 4]);
    s[i + 3] := BitSelect(o, s[i + 3], s[i + 4], tmp1);
    s[i + 4] := BitSelect(o, s[i + 4], tmp1, tmp2);
    RowIsChi(o, before, s[..], i);
  }

  method RoundLoop<W(!new)>(s: array<W>, o: LaneOps<W>, rc: W)
    requires s.Length == 25 && SelectIsChi(o)
    modifies s
    ensures s[..] == Round(o, old(s[..]), rc)
  {
    ThetaFused(s, o);
    RhoPiLoop(s, o);
    ChiSelect(s, o);
    IotaInPlace(s, o, rc);
  }

  // The table-driven form is the same permutation.
  method KeccakLoop<W(!new)>(s: array<W>, o: LaneOps<W>, rndc: seq<W>)
    requires s.Length == 25 && SelectIsChi(o)
    modifies s
    ensures s[..] == Permute(o, old(s[..]), rndc, |rndc|)
  {
    for round := 0 to |rndc|
      invariant s[..] == Permute(o, old(s[..]), rndc, round)
    {
      RoundLoop(s, o, rndc[round]);
    }
  }

  method PermuteBoth<W(!new)>(st: array<W>, s: array<W>, o: LaneOps<W>, rndc: seq<W>)
    requires st.Length == 25 && s.Length == 25 && st != s && st[..] == s[..] && SelectIsChi(o)
    modifies st, s
    ensures st[..] == s[..] == Permute(o, old(st[..]), rndc, |rndc|)
  {
    Keccakf(st, o, rndc, |rndc|);
    KeccakLoop(s, o, rndc);
  }
}
