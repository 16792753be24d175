// FIPS 202 bit by bit: the steps of section 3.2 on 1600 bits, the permutation, and the sponge
// of section 4 on bit strings; and lanes of any type against it, as long as the bits of their
// operations are right. Bit z of lane (x, y), which is A[x, y, z] of the standard, is bit
// 64 * (5 * y + x) + z of the state.

module KeccakBits {
  import opened ByteBits
  import opened KeccakSpec
  import opened KeccakSponge

  // ---- the standard ----

  type State = a: seq<bool> | |a| == 1600 witness seq(1600, i => false)

  function Cell(a: State, i: nat, z: nat): bool
    requires i < 25 && z < 64
  {
    a[64 * i + z]
  }

  function Plus(p: bool, q: bool): bool {
    p != q
  }

  function Column(a: State, x: nat, z: nat): bool
    requires x < 5 && z < 64
  {
    Plus(Plus(Plus(Plus(Cell(a, x, z), Cell(a, x + 5, z)), Cell(a, x + 10, z)), Cell(a, x + 15, z)), Cell(a, x + 20, z))
  }

  // Section 3.2.1.
  function ThetaBit(a: State, i: nat, z: nat): bool
    requires i < 25 && z < 64
  {
    Plus(Cell(a, i, z), Plus(Column(a, (i % 5 + 4) % 5, z), Column(a, (i % 5 + 1) % 5, (z + 63) % 64)))
  }

  // Sections 3.2.2 and 3.2.3: lane (x, y) comes from lane (x + 3y, x), and bit z of it from
  // as many bits before z as the offset of that lane says.
  function RhoPiBit(a: State, i: nat, z: nat): bool
    requires i < 25 && z < 64
  {
    Cell(a, PiSource(i), (z + 64 - Rho(PiSource(i))) % 64)
  }

  // Section 3.2.4.
  function ChiBit(a: State, i: nat, z: nat): bool
    requires i < 25 && z < 64
  {
    Plus(Cell(a, i, z), !Cell(a, RowNext(i, 1), z) && Cell(a, RowNext(i, 2), z))
  }

  // Section 3.2.5: the constant of the round is added to lane (0, 0).
  function IotaBit(a: State, constant: nat -> bool, i: nat, z: nat): bool
    requires i < 25 && z < 64
  {
    Plus(Cell(a, i, z), i == 0 && constant(z))
  }

  function ThetaOn(a: State): State {
    seq(1600, k requires 0 <= k < 1600 => ThetaBit(a, k / 64, k % 64))
  }

  function RhoPiOn(a: State): State {
    seq(1600, k requires 0 <= k < 1600 => RhoPiBit(a, k / 64, k % 64))
  }

  function ChiOn(a: State): State {
    seq(1600, k requires 0 <= k < 1600 => ChiBit(a, k / 64, k % 64))
  }

  function IotaOn(a: State, constant: nat -> bool): State {
    seq(1600, k requires 0 <= k < 1600 => IotaBit(a, constant, k / 64, k % 64))
  }

  function RoundOn(a: State, constant: nat -> bool): State {
    IotaOn(ChiOn(RhoPiOn(ThetaOn(a))), constant)
  }

  // Bit z of the constant of each round.
  type Constants = seq<nat -> bool>

  // The first rounds of Keccak-f[1600].
  function PermuteOn(a: State, rc: Constants, rounds: nat): State
    requires rounds <= |rc|
    decreases rounds
  {
    if rounds == 0 then a else RoundOn(PermuteOn(a, rc, rounds - 1), rc[rounds - 1])
  }

  // A block of bits added at the start of the state.
  function Added(a: State, block: seq<bool>): State {
    seq(1600, k requires 0 <= k < 1600 => Plus(a[k], k < |block| && block[k]))
  }

  // Section 4: block after block is added, with the permutation after each.
  function AbsorbOn(a: State, rc: Constants, bits: seq<bool>, r: nat): State
    requires 0 < r
    decreases |bits|
  {
    if |bits| < r then a
    else AbsorbOn(PermuteOn(Added(a, bits[..r]), rc, |rc|), rc, bits[r..], r)
  }

  function NoBits(): State {
    seq(1600, i => false)
  }

  // The state that is squeezed for a message of bits.
  function SpongeOn(rc: Constants, message: seq<bool>, r: nat): State
    requires 0 < r
  {
    AbsorbOn(NoBits(), rc, message + Pad101(r, |message|), r)
  }

  // ---- lanes as bits ----

  ghost predicate XorRight<W>(w: Words<W>, bit: (W, nat) -> bool, x: W, y: W, z: nat) {
    bit(w.lanes.xor(x, y), z) == Plus(bit(x, z), bit(y, z))
  }

  ghost predicate ChiRight<W>(w: Words<W>, bit: (W, nat) -> bool, x: W, y: W, v: W, z: nat) {
    bit(w.lanes.chi(x, y, v), z) == Plus(bit(x, z), !bit(y, z) && bit(v, z))
  }

  ghost predicate RotlRight<W>(w: Words<W>, bit: (W, nat) -> bool, x: W, n: nat, z: nat) {
    bit(w.lanes.rotl(x, n), (z + n) % 64) == bit(x, z)
  }

  ghost predicate StoreRight<W>(w: Words<W>, bit: (W, nat) -> bool, x: W, z: nat)
    requires z < 64
  {
    |w.store(x)| == 8 && Bits(w.store(x))[z] == bit(x, z)
  }

  ghost predicate LoadRight<W>(w: Words<W>, bit: (W, nat) -> bool, b: seq<bv8>, z: nat)
    requires z < 64
  {
    |b| == 8 ==> Bits(b)[z] == bit(w.load(b), z)
  }

  // The operations move bits as they should, and eight bytes hold the bits of a lane in order.
  ghost predicate BitsAreRight<W(!new)>(w: Words<W>, bit: (W, nat) -> bool) {
    && (forall x: W, y: W, z: nat :: XorRight(w, bit, x, y, z))
    && (forall x: W, y: W, v: W, z: nat :: ChiRight(w, bit, x, y, v, z))
    && (forall x: W, n: nat, z: nat :: RotlRight(w, bit, x, n, z))
    && (forall z: nat :: !bit(w.zero, z))
    && (forall x: W, z: nat :: z < 64 ==> StoreRight(w, bit, x, z))
    && (forall b: seq<bv8>, z: nat :: z < 64 ==> LoadRight(w, bit, b, z))
  }

  ghost predicate Stands<W>(bit: (W, nat) -> bool, s: seq<W>, a: State) {
    |s| == 25 && forall i: nat, z: nat :: i < 25 && z < 64 ==> Cell(a, i, z) == bit(s[i], z)
  }

  lemma CellOf(i: nat, z: nat)
    requires i < 25 && z < 64
    ensures 64 * i + z < 1600 && (64 * i + z) / 64 == i && (64 * i + z) % 64 == z
  {
  }

  lemma FiveBits<W(!new)>(w: Words<W>, bit: (W, nat) -> bool, x0: W, x1: W, x2: W, x3: W, x4: W, z: nat)
    requires BitsAreRight(w, bit)
    ensures bit(w.lanes.xor(w.lanes.xor(w.lanes.xor(w.lanes.xor(x0, x1), x2), x3), x4), z)
         == Plus(Plus(Plus(Plus(bit(x0, z), bit(x1, z)), bit(x2, z)), bit(x3, z)), bit(x4, z))
  {
    var two := w.lanes.xor(x0, x1);
    var three := w.lanes.xor(two, x2);
    var four := w.lanes.xor(three, x3);
    assert XorRight(w, bit, x0, x1, z) && XorRight(w, bit, two, x2, z);
    assert XorRight(w, bit, three, x3, z) && XorRight(w, bit, four, x4, z);
  }

  lemma ColumnBits<W(!new)>(w: Words<W>, bit: (W, nat) -> bool, s: seq<W>, a: State, x: nat, z: nat)
    requires BitsAreRight(w, bit) && Stands(bit, s, a) && x < 5 && z < 64
    ensures bit(ColumnParity(w.lanes, s, x), z) == Column(a, x, z)
  {
    FiveBits(w, bit, s[x], s[x + 5], s[x + 10], s[x + 15], s[x + 20], z);
  }

  // A bit of a rotated lane is the bit as many places before.
  lemma RotatedFrom<W(!new)>(w: Words<W>, bit: (W, nat) -> bool, x: W, n: nat, z: nat)
    requires BitsAreRight(w, bit) && n < 64 && z < 64
    ensures bit(w.lanes.rotl(x, n), z) == bit(x, (z + 64 - n) % 64)
  {
    var from := (z + 64 - n) % 64;
    assert (from + n) % 64 == z;
    assert RotlRight(w, bit, x, n, from);
  }

  lemma ThetaCell<W(!new)>(w: Words<W>, bit: (W, nat) -> bool, s: seq<W>, a: State, i: nat, z: nat)
    requires BitsAreRight(w, bit) && Stands(bit, s, a) && i < 25 && z < 64
    ensures bit(w.lanes.xor(s[i], ThetaEffect(w.lanes, s, i % 5)), z) == ThetaBit(a, i, z)
  {
    var west, east := (i % 5 + 4) % 5, (i % 5 + 1) % 5;
    ColumnBits(w, bit, s, a, west, z);
    ColumnBits(w, bit, s, a, east, (z + 63) % 64);
    var first, second := ColumnParity(w.lanes, s, west), ColumnParity(w.lanes, s, east);
    RotatedFrom(w, bit, second, 1, z);
    assert XorRight(w, bit, first, w.lanes.rotl(second, 1), z);
    assert XorRight(w, bit, s[i], ThetaEffect(w.lanes, s, i % 5), z);
  }

  lemma ThetaBits<W(!new)>(w: Words<W>, bit: (W, nat) -> bool, s: seq<W>, a: State)
    requires BitsAreRight(w, bit) && Stands(bit, s, a)
    ensures Stands(bit, Theta(w.lanes, s), ThetaOn(a))
  {
    forall i: nat, z: nat | i < 25 && z < 64
      ensures Cell(ThetaOn(a), i, z) == bit(Theta(w.lanes, s)[i], z)
    {
      CellOf(i, z);
      ThetaCell(w, bit, s, a, i, z);
    }
  }

  lemma MovedCell<W(!new)>(w: Words<W>, bit: (W, nat) -> bool, s: seq<W>, a: State, source: nat, n: nat, z: nat)
    requires BitsAreRight(w, bit) && Stands(bit, s, a) && source < 25 && n < 64 && z < 64
    ensures bit(w.lanes.rotl(s[source], n), z) == Cell(a, source, (z + 64 - n) % 64)
  {
    RotatedFrom(w, bit, s[source], n, z);
  }

  lemma FullTurn(z: nat)
    requires z < 64
    ensures (z + 64) % 64 == z && PiSource(0) == 0
  {
  }

  lemma FirstLaneStays(a: State, z: nat)
    requires z < 64
    ensures RhoPiBit(a, 0, z) == Cell(a, 0, z)
  {
    assert Rho(0) == 0;
    FullTurn(z);
  }

  lemma RhoPiCell<W(!new)>(w: Words<W>, bit: (W, nat) -> bool, s: seq<W>, a: State, i: nat, z: nat)
    requires BitsAreRight(w, bit) && Stands(bit, s, a) && i < 25 && z < 64
    ensures bit(Moved(w.lanes, s, i), z) == RhoPiBit(a, i, z)
  {
    if i == 0 {
      FirstLaneStays(a, z);
      assert Cell(a, 0, z) == bit(s[0], z);
    } else {
      MovedCell(w, bit, s, a, PiSource(i), Rho(PiSource(i)), z);
    }
  }

  lemma RhoPiBits<W(!new)>(w: Words<W>, bit: (W, nat) -> bool, s: seq<W>, a: State)
    requires BitsAreRight(w, bit) && Stands(bit, s, a)
    ensures Stands(bit, RhoPi(w.lanes, s), RhoPiOn(a))
  {
    forall i: nat, z: nat | i < 25 && z < 64
      ensures Cell(RhoPiOn(a), i, z) == bit(RhoPi(w.lanes, s)[i], z)
    {
      CellOf(i, z);
      RhoPiCell(w, bit, s, a, i, z);
    }
  }

  lemma ChiBits<W(!new)>(w: Words<W>, bit: (W, nat) -> bool, s: seq<W>, a: State)
    requires BitsAreRight(w, bit) && Stands(bit, s, a)
    ensures Stands(bit, Chi(w.lanes, s), ChiOn(a))
  {
    forall i: nat, z: nat | i < 25 && z < 64
      ensures Cell(ChiOn(a), i, z) == bit(Chi(w.lanes, s)[i], z)
    {
      CellOf(i, z);
      assert ChiRight(w, bit, s[i], s[RowNext(i, 1)], s[RowNext(i, 2)], z);
    }
  }

  // The round constants as bits.
  ghost predicate ConstantStands<W>(bit: (W, nat) -> bool, rc: W, constant: nat -> bool) {
    forall z: nat :: z < 64 ==> constant(z) == bit(rc, z)
  }

  ghost predicate ConstantsStand<W>(bit: (W, nat) -> bool, rc: seq<W>, constants: Constants) {
    |rc| == |constants| && forall r: nat :: r < |rc| ==> ConstantAt(bit, rc, constants, r)
  }

  ghost predicate ConstantAt<W>(bit: (W, nat) -> bool, rc: seq<W>, constants: Constants, r: nat)
    requires r < |rc| == |constants|
  {
    ConstantStands(bit, rc[r], constants[r])
  }

  lemma IotaBits<W(!new)>(w: Words<W>, bit: (W, nat) -> bool, s: seq<W>, a: State, rc: W, constant: nat -> bool)
    requires BitsAreRight(w, bit) && Stands(bit, s, a)
    requires ConstantStands(bit, rc, constant)
    ensures Stands(bit, Iota(w.lanes, s, rc), IotaOn(a, constant))
  {
    forall i: nat, z: nat | i < 25 && z < 64
      ensures Cell(IotaOn(a, constant), i, z) == bit(Iota(w.lanes, s, rc)[i], z)
    {
      CellOf(i, z);
      assert XorRight(w, bit, s[0], rc, z);
    }
  }

  lemma RoundBits<W(!new)>(w: Words<W>, bit: (W, nat) -> bool, s: seq<W>, a: State, rc: W, constant: nat -> bool)
    requires BitsAreRight(w, bit) && Stands(bit, s, a)
    requires ConstantStands(bit, rc, constant)
    ensures Stands(bit, Round(w.lanes, s, rc), RoundOn(a, constant))
  {
    var theta, thetaOn := Theta(w.lanes, s), ThetaOn(a);
    var moved, movedOn := RhoPi(w.lanes, theta), RhoPiOn(thetaOn);
    ThetaBits(w, bit, s, a);
    RhoPiBits(w, bit, theta, thetaOn);
    ChiBits(w, bit, moved, movedOn);
    IotaBits(w, bit, Chi(w.lanes, moved), ChiOn(movedOn), rc, constant);
  }

  ghost predicate StandsAfter<W>(w: Words<W>, bit: (W, nat) -> bool, s: seq<W>, a: State,
                                 rc: seq<W>, constants: Constants, rounds: nat)
    requires |s| == 25 && rounds <= |rc| == |constants|
  {
    Stands(bit, Permute(w.lanes, s, rc, rounds), PermuteOn(a, constants, rounds))
  }

  lemma NextRound<W(!new)>(w: Words<W>, bit: (W, nat) -> bool, s: seq<W>, a: State,
                           rc: seq<W>, constants: Constants, rounds: nat)
    requires BitsAreRight(w, bit) && |s| == 25 && ConstantsStand(bit, rc, constants) && rounds < |rc|
    requires StandsAfter(w, bit, s, a, rc, constants, rounds)
    ensures StandsAfter(w, bit, s, a, rc, constants, rounds + 1)
  {
    var t, b := Permute(w.lanes, s, rc, rounds), PermuteOn(a, constants, rounds);
    assert ConstantAt(bit, rc, constants, rounds);
    RoundBits(w, bit, t, b, rc[rounds], constants[rounds]);
    assert Permute(w.lanes, s, rc, rounds + 1) == Round(w.lanes, t, rc[rounds]);
    assert PermuteOn(a, constants, rounds + 1) == RoundOn(b, constants[rounds]);
  }

  // The permutation of the lanes is that of the bits.
  lemma PermutationBits<W(!new)>(w: Words<W>, bit: (W, nat) -> bool, s: seq<W>, a: State,
                                 rc: seq<W>, constants: Constants, rounds: nat)
    requires BitsAreRight(w, bit) && Stands(bit, s, a) && ConstantsStand(bit, rc, constants) && rounds <= |rc|
    ensures StandsAfter(w, bit, s, a, rc, constants, rounds)
  {
    for r := 0 to rounds
      invariant StandsAfter(w, bit, s, a, rc, constants, r)
    {
      NextRound(w, bit, s, a, rc, constants, r);
    }
  }

  // ---- blocks ----

  lemma BitsOfPart(b: seq<bv8>, from: nat, n: nat, z: nat)
    requires from + n <= |b| && z < 8 * n
    ensures Bits(b[from..from + n])[z] == Bits(b)[8 * from + z]
  {
    assert (8 * from + z) / 8 == from + z / 8 && (8 * from + z) % 8 == z % 8;
  }

  lemma AddedCell<W(!new)>(w: Words<W>, bit: (W, nat) -> bool, s: seq<W>, a: State, block: seq<bv8>, i: nat, z: nat)
    requires BitsAreRight(w, bit) && Stands(bit, s, a) && i < 25 && z < 64
    requires |block| % 8 == 0 && |block| <= 200
    ensures bit(AbsorbedLane(w, s, block, i), z) == Cell(Added(a, Bits(block)), i, z)
  {
    CellOf(i, z);
    assert Cell(a, i, z) == bit(s[i], z);
    if i < |block| / 8 {
      var part := block[8 * i..8 * i + 8];
      assert XorRight(w, bit, s[i], w.load(part), z);
      assert LoadRight(w, bit, part, z);
      BitsOfPart(block, 8 * i, 8, z);
    }
  }

  lemma AddedBits<W(!new)>(w: Words<W>, bit: (W, nat) -> bool, s: seq<W>, a: State, block: seq<bv8>)
    requires BitsAreRight(w, bit) && Stands(bit, s, a) && |block| % 8 == 0 && |block| <= 200
    ensures Stands(bit, AbsorbBlock(w, s, block), Added(a, Bits(block)))
  {
    forall i: nat, z: nat | i < 25 && z < 64
      ensures Cell(Added(a, Bits(block)), i, z) == bit(AbsorbBlock(w, s, block)[i], z)
    {
      AddedCell(w, bit, s, a, block, i, z);
    }
  }

  lemma BlockBits<W(!new)>(w: Words<W>, bit: (W, nat) -> bool, s: seq<W>, a: State,
                           rc: seq<W>, constants: Constants, block: seq<bv8>)
    requires BitsAreRight(w, bit) && Stands(bit, s, a) && ConstantsStand(bit, rc, constants)
    requires |block| % 8 == 0 && |block| <= 200
    ensures Stands(bit, Absorbed(w, rc, s, block), PermuteOn(Added(a, Bits(block)), constants, |constants|))
  {
    AddedBits(w, bit, s, a, block);
    PermutationBits(w, bit, AbsorbBlock(w, s, block), Added(a, Bits(block)), rc, constants, |rc|);
  }

  ghost predicate StandsAbsorbed<W>(w: Words<W>, bit: (W, nat) -> bool, s: seq<W>, a: State,
                                    rc: seq<W>, constants: Constants, data: seq<bv8>, rate: nat)
    requires |s| == 25 && 0 < rate
  {
    Stands(bit, Absorb(w, rc, s, data, rate), AbsorbOn(a, constants, Bits(data), 8 * rate))
  }

  lemma FirstBits(data: seq<bv8>, rate: nat)
    requires rate <= |data|
    ensures Bits(data)[..8 * rate] == Bits(data[..rate]) && Bits(data)[8 * rate..] == Bits(data[rate..])
  {
    assert data == data[..rate] + data[rate..];
    BitsConcat(data[..rate], data[rate..]);
  }

  lemma NextBits(a: State, constants: Constants, bits: seq<bool>, r: nat)
    requires 0 < r <= |bits|
    ensures AbsorbOn(a, constants, bits, r)
         == AbsorbOn(PermuteOn(Added(a, bits[..r]), constants, |constants|), constants, bits[r..], r)
  {
  }

  lemma NextBlock<W>(w: Words<W>, rc: seq<W>, s: seq<W>, data: seq<bv8>, rate: nat)
    requires |s| == 25 && 0 < rate <= |data|
    ensures Absorb(w, rc, s, data, rate) == Absorb(w, rc, Absorbed(w, rc, s, data[..rate]), data[rate..], rate)
  {
  }

  lemma SameStands<W>(bit: (W, nat) -> bool, s: seq<W>, t: seq<W>, a: State, b: State)
    requires Stands(bit, s, a) && s == t && a == b
    ensures Stands(bit, t, b)
  {
  }

  lemma FirstBlock<W(!new)>(w: Words<W>, bit: (W, nat) -> bool, s: seq<W>, a: State,
                            rc: seq<W>, constants: Constants, data: seq<bv8>, rate: nat, t: seq<W>, b: State)
    requires |s| == |t| == 25 && 0 < rate <= |data|
    requires t == Absorbed(w, rc, s, data[..rate])
    requires b == PermuteOn(Added(a, Bits(data)[..8 * rate]), constants, |constants|)
    requires StandsAbsorbed(w, bit, t, b, rc, constants, data[rate..], rate)
    ensures StandsAbsorbed(w, bit, s, a, rc, constants, data, rate)
  {
    FirstBits(data, rate);
    NextBits(a, constants, Bits(data), 8 * rate);
    NextBlock(w, rc, s, data, rate);
    SameStands(bit, Absorb(w, rc, t, data[rate..], rate), Absorb(w, rc, s, data, rate),
               AbsorbOn(b, constants, Bits(data)[8 * rate..], 8 * rate), AbsorbOn(a, constants, Bits(data), 8 * rate));
  }

  // Absorbing bytes absorbs their bits.
  lemma {:induction false} AbsorbBits<W(!new)>(w: Words<W>, bit: (W, nat) -> bool, s: seq<W>, a: State,
                                               rc: seq<W>, constants: Constants, data: seq<bv8>, rate: nat)
    requires BitsAreRight(w, bit) && Stands(bit, s, a) && ConstantsStand(bit, rc, constants)
    requires 0 < rate <= 200 && rate % 8 == 0
    ensures StandsAbsorbed(w, bit, s, a, rc, constants, data, rate)
    decreases |data|
  {
    if |data| >= rate {
      var t := Absorbed(w, rc, s, data[..rate]);
      var b := PermuteOn(Added(a, Bits(data)[..8 * rate]), constants, |constants|);
      FirstBits(data, rate);
      BlockBits(w, bit, s, a, rc, constants, data[..rate]);
      AbsorbBits(w, bit, t, b, rc, constants, data[rate..], rate);
      FirstBlock(w, bit, s, a, rc, constants, data, rate, t, b);
    }
  }

  lemma ZerosStand<W(!new)>(w: Words<W>, bit: (W, nat) -> bool)
    requires BitsAreRight(w, bit)
    ensures Stands(bit, ZeroState(w), NoBits())
  {
    forall i: nat, z: nat | i < 25 && z < 64
      ensures Cell(NoBits(), i, z) == bit(ZeroState(w)[i], z)
    {
      CellOf(i, z);
    }
  }

  lemma {:induction false} StateBits<W(!new)>(w: Words<W>, bit: (W, nat) -> bool, s: seq<W>, i: nat, z: nat)
    requires BitsAreRight(w, bit) && StoresEight(w) && i < |s| && z < 64
    ensures 64 * i + z < |Bits(BytesOf(w, s))| && Bits(BytesOf(w, s))[64 * i + z] == bit(s[i], z)
    decreases |s|
  {
    var front, last := s[..|s| - 1], s[|s| - 1];
    BitsConcat(BytesOf(w, front), w.store(last));
    if i < |s| - 1 {
      StateBits(w, bit, front, i, z);
    } else {
      assert StoreRight(w, bit, last, z);
    }
  }

  lemma LanesInBytes<W(!new)>(w: Words<W>, bit: (W, nat) -> bool, s: seq<W>, a: State)
    requires BitsAreRight(w, bit) && StoresEight(w) && Stands(bit, s, a)
    ensures Bits(BytesOf(w, s)) == a
  {
    forall k: nat | k < 1600
      ensures Bits(BytesOf(w, s))[k] == a[k]
    {
      StateBits(w, bit, s, k / 64, k % 64);
      assert 64 * (k / 64) + k % 64 == k;
      assert Cell(a, k / 64, k % 64) == bit(s[k / 64], k % 64);
    }
  }

  // The bytes of the state after the padded message are the bits the standard squeezes, for
  // every rate that is a whole number of lanes.
  lemma SpongeBits<W(!new)>(w: Words<W>, bit: (W, nat) -> bool, rc: seq<W>, constants: Constants,
                            data: seq<bv8>, rate: nat)
    requires BitsAreRight(w, bit) && StoresEight(w) && ConstantsStand(bit, rc, constants)
    requires 0 < rate <= 200 && rate % 8 == 0
    ensures Bits(Squeezed(w, rc, data, rate)) == SpongeOn(constants, Bits(data), 8 * rate)
  {
    ZerosStand(w, bit);
    AbsorbBits(w, bit, ZeroState(w), NoBits(), rc, constants, Padded(data, rate), rate);
    PaddingIsStandard(data, rate);
    LanesInBytes(w, bit, Absorb(w, rc, ZeroState(w), Padded(data, rate), rate),
                 AbsorbOn(NoBits(), constants, Bits(Padded(data, rate)), 8 * rate));
  }
}
