// The permutation of FIPS 202, sections 3.2 and 3.3, on 25 lanes: lane (x, y) is number
// x + 5 * y. Lanes may be of any type with the operations the steps use; those of the
// source are 64-bit words.

module KeccakSpec {

  // x ^ y, x ^ (~y & z), the bitwise choice of y where z is set and x elsewhere, rotation.
  datatype LaneOps<!W> = LaneOps(
    xor: (W, W) -> W,
    chi: (W, W, W) -> W,
    select: (W, W, W) -> W,
    rotl: (W, nat) -> W)

  // ---- theta: section 3.2.1 ----

  function ColumnParity<W>(o: LaneOps<W>, s: seq<W>, x: nat): W
    requires |s| == 25 && x < 5
  {
    o.xor(o.xor(o.xor(o.xor(s[x], s[x + 5]), s[x + 10]), s[x + 15]), s[x + 20])
  }

  function ThetaEffect<W>(o: LaneOps<W>, s: seq<W>, x: nat): W
    requires |s| == 25 && x < 5
  {
    o.xor(ColumnParity(o, s, (x + 4) % 5), o.rotl(ColumnParity(o, s, (x + 1) % 5), 1))
  }

  function Theta<W>(o: LaneOps<W>, s: seq<W>): (r: seq<W>)
    requires |s| == 25
    ensures |r| == 25 && forall i :: 0 <= i < 25 ==> r[i] == o.xor(s[i], ThetaEffect(o, s, i % 5))
  {
    seq(25, i requires 0 <= i < 25 => o.xor(s[i], ThetaEffect(o, s, i % 5)))
  }

  // ---- rho and pi: sections 3.2.2 and 3.2.3 ----

  // The rotation of lane k.
  function Rho(k: nat): (r: nat)
    ensures r < 64
  {
    match k
    case 0 => 0 case 1 => 1 case 2 => 62 case 3 => 28 case 4 => 27 case 5 => 36
    case 6 => 44 case 7 => 6 case 8 => 55 case 9 => 20 case 10 => 3 case 11 => 10
    case 12 => 43 case 13 => 25 case 14 => 39 case 15 => 41 case 16 => 45 case 17 => 15
    case 18 => 21 case 19 => 8 case 20 => 18 case 21 => 2 case 22 => 61 case 23 => 56
    case 24 => 14
    case _ => 0
  }

  // The lane that pi moves to lane j: (x + 3y, x) for (x, y).
  function PiSource(j: nat): (i: nat)
    ensures i < 25
  {
    (j % 5 + 3 * (j / 5)) % 5 + 5 * (j % 5)
  }

  function RhoPi<W>(o: LaneOps<W>, s: seq<W>): (r: seq<W>)
    requires |s| == 25
    ensures |r| == 25 && forall j :: 0 <= j < 25 ==> r[j] == Moved(o, s, j)
  {
    seq(25, j requires 0 <= j < 25 => Moved(o, s, j))
  }

  // Lane 0 is not rotated.
  function Moved<W>(o: LaneOps<W>, s: seq<W>, j: nat): W
    requires |s| == 25 && j < 25
  {
    if j == 0 then s[0] else o.rotl(s[PiSource(j)], Rho(PiSource(j)))
  }

  lemma SameLanes<W>(a: seq<W>, b: seq<W>)
    requires |a| == |b| == 25
    requires a[0] == b[0] && a[1] == b[1] && a[2] == b[2] && a[3] == b[3] && a[4] == b[4]
    requires a[5] == b[5] && a[6] == b[6] && a[7] == b[7] && a[8] == b[8] && a[9] == b[9]
    requires a[10] == b[10] && a[11] == b[11] && a[12] == b[12] && a[13] == b[13] && a[14] == b[14]
    requires a[15] == b[15] && a[16] == b[16] && a[17] == b[17] && a[18] == b[18] && a[19] == b[19]
    requires a[20] == b[20] && a[21] == b[21] && a[22] == b[22] && a[23] == b[23] && a[24] == b[24]
    ensures a == b
  {
  }

  // ---- chi and iota: sections 3.2.4 and 3.2.5 ----

  function RowNext(i: nat, n: nat): (j: nat)
    requires i < 25
    ensures j < 25
  {
    i / 5 * 5 + (i + n) % 5
  }

  function ChiAt<W>(o: LaneOps<W>, s: seq<W>, i: nat): W
    requires |s| == 25 && i < 25
  {
    o.chi(s[i], s[RowNext(i, 1)], s[RowNext(i, 2)])
  }

  // chi does not leave the row.
  lemma ChiInRow<W>(o: LaneOps<W>, s: seq<W>, t: seq<W>, j: nat)
    requires |s| == |t| == 25 && j % 5 == 0 && j < 25
    requires forall k :: j <= k < j + 5 ==> s[k] == t[k]
    ensures forall k :: j <= k < j + 5 ==> ChiAt(o, s, k) == ChiAt(o, t, k)
  {
  }

  function Chi<W>(o: LaneOps<W>, s: seq<W>): (r: seq<W>)
    requires |s| == 25
    ensures |r| == 25 && forall i :: 0 <= i < 25 ==> r[i] == ChiAt(o, s, i)
  {
    seq(25, i requires 0 <= i < 25 => ChiAt(o, s, i))
  }

  function Iota<W>(o: LaneOps<W>, s: seq<W>, rc: W): (r: seq<W>)
    requires |s| == 25
    ensures |r| == 25
  {
    s[0 := o.xor(s[0], rc)]
  }

  function Round<W>(o: LaneOps<W>, s: seq<W>, rc: W): (r: seq<W>)
    requires |s| == 25
    ensures |r| == 25
  {
    Iota(o, Chi(o, RhoPi(o, Theta(o, s))), rc)
  }

  // The first rounds of the permutation, with their round constants.
  function Permute<W>(o: LaneOps<W>, s: seq<W>, rc: seq<W>, rounds: nat): (r: seq<W>)
    requires |s| == 25 && rounds <= |rc|
    ensures |r| == 25
    decreases rounds, |s|
  {
    if rounds == 0 then s else Round(o, Permute(o, s, rc, rounds - 1), rc[rounds - 1])
  }

  // ---- where the rotations come from ----

  // The walk of section 3.2.2: from (1, 0), each time from (x, y) to (y, 2x + 3y).
  function WalkNext(i: nat): (j: nat) {
    i / 5 + 5 * ((2 * (i % 5) + 3 * (i / 5)) % 5)
  }

  function WalkLane(t: nat): nat {
    if t == 0 then 1 else WalkNext(WalkLane(t - 1))
  }

  function Triangle(t: nat): nat {
    if t == 0 then 1 else Triangle(t - 1) + t + 1
  }

  lemma {:induction false} TriangleFormula(t: nat)
    ensures Triangle(t) == (t + 1) * (t + 2) / 2
  {
    if t > 0 {
      TriangleFormula(t - 1);
      assert (t + 1) * (t + 2) == t * (t + 1) + 2 * (t + 1);
    }
  }
}
