// The lanes of the source: 64-bit words, little-endian in memory, with the 24 round
// constants; bit for bit they compute what FIPS 202 says.

module KeccakWords {
  import opened ByteBits
  import opened KeccakSpec
  import opened KeccakInPlace
  import opened KeccakSponge
  import opened KeccakBits
  import opened WordBits
  import opened WordShifts

  const LANES64: LaneOps<bv64> := LaneOps(Xor64, Chi64, BitSelect64, Rotl64)

  const WORDS64: Words<bv64> := Words(LANES64, 0, Load64, Store64)

  lemma BitwiseLaw(x: bv64, y: bv64, z: bv64)
    ensures ((x ^ z) & !y) | (x & y) == x ^ (!y & z)
  {
  }

  lemma SelectLaw(x: bv64, y: bv64, z: bv64)
    ensures BitSelect64(x ^ z, x, y) == Chi64(x, y, z)
  {
    BitwiseLaw(x, y, z);
  }

  lemma XorIs(x: bv64, y: bv64)
    ensures Xor64(x, y) == x ^ y
  {
  }

  lemma LanesLaw(x: bv64, y: bv64, z: bv64)
    ensures LANES64.select(LANES64.xor(x, z), x, y) == LANES64.chi(x, y, z)
  {
    SelectLaw(x, y, z);
    XorIs(x, z);
  }

  lemma SelectsAreChi()
    ensures SelectIsChi(LANES64)
  {
    forall x, y, z
      ensures LANES64.select(LANES64.xor(x, z), x, y) == LANES64.chi(x, y, z)
    {
      LanesLaw(x, y, z);
    }
  }

  lemma XorZero(x: bv64)
    ensures 0 ^ x == x
  {
  }

  lemma LoadZero(b: seq<bv8>)
    requires b == Zeros(8)
    ensures Load64(b) == 0
  {
    assert b[0] == b[1] == b[2] == b[3] == b[4] == b[5] == b[6] == b[7] == 0;
  }

  lemma ZerosAreNeutral()
    ensures ZeroIsNeutral(WORDS64)
  {
    forall x: bv64
      ensures WORDS64.lanes.xor(WORDS64.zero, x) == x
    {
      XorZero(x);
    }
    LoadZero(Zeros(8));
  }

  // ---- the constants ----

  function RoundConstant(i: nat): bv64 {
    match i
    case 0 => 0x0000000000000001 case 1 => 0x0000000000008082 case 2 => 0x800000000000808a
    case 3 => 0x8000000080008000 case 4 => 0x000000000000808b case 5 => 0x0000000080000001
    case 6 => 0x8000000080008081 case 7 => 0x8000000000008009 case 8 => 0x000000000000008a
    case 9 => 0x0000000000000088 case 10 => 0x0000000080008009 case 11 => 0x000000008000000a
    case 12 => 0x000000008000808b case 13 => 0x800000000000008b case 14 => 0x8000000000008089
    case 15 => 0x8000000000008003 case 16 => 0x8000000000008002 case 17 => 0x8000000000000080
    case 18 => 0x000000000000800a case 19 => 0x800000008000000a case 20 => 0x8000000080008081
    case 21 => 0x8000000000008080 case 22 => 0x0000000080000001 case 23 => 0x8000000080008008
    case _ => 0
  }

  function RoundConstants(): (rc: seq<bv64>)
    ensures |rc| == 24
  {
    seq(24, i requires 0 <= i < 24 => RoundConstant(i))
  }

  // The register of section 3.2.5, coefficient of x^k in bit k: times x, modulo
  // x^8 + x^6 + x^5 + x^4 + 1.
  function Shifted(r: bv8): bv8 {
    if r & 0x80 != 0 then (r << 1) ^ 0x71 else r << 1
  }

  function Register(t: nat): bv8 {
    if t == 0 then 1 else Shifted(Register(t - 1))
  }

  // rc(t) of the standard.
  function Rc(t: nat): bool {
    Register(t) & 1 != 0
  }

  // The constant of a round: rc(7i + j) in bit 2^j - 1.
  function StandardConstant(i: nat): bv64 {
    Flags(Rc(7 * i), Rc(7 * i + 1), Rc(7 * i + 2), Rc(7 * i + 3), Rc(7 * i + 4), Rc(7 * i + 5), Rc(7 * i + 6))
  }

  function SixShifts(r: bv8): (s: seq<bv8>)
    ensures |s| == 7
  {
    var r1 := Shifted(r);
    var r2 := Shifted(r1);
    var r3 := Shifted(r2);
    var r4 := Shifted(r3);
    var r5 := Shifted(r4);
    [r, r1, r2, r3, r4, r5, Shifted(r5)]
  }

  // The round constant from the seven registers of the round.
  function OfShifts(r: seq<bv8>): bv64
    requires |r| == 7
  {
    Flags(r[0] & 1 != 0, r[1] & 1 != 0, r[2] & 1 != 0, r[3] & 1 != 0, r[4] & 1 != 0, r[5] & 1 != 0, r[6] & 1 != 0)
  }

  // The register at the start of each round.
  function AtRound(i: nat): bv8 {
    match i
    case 0 => 0x01 case 1 => 0x80 case 2 => 0xd8 case 3 => 0x1a case 4 => 0xdf case 5 => 0x09
    case 6 => 0x35 case 7 => 0x4f case 8 => 0xca case 9 => 0x70 case 10 => 0x41 case 11 => 0xec
    case 12 => 0xd5 case 13 => 0xcd case 14 => 0x63 case 15 => 0xab case 16 => 0xaa case 17 => 0x2a
    case 18 => 0xf2 case 19 => 0xe8 case 20 => 0x37 case 21 => 0x3e case 22 => 0x0b case 23 => 0x44
    case 24 => 0x8e
    case _ => 0
  }

  lemma SevenShiftsEarly(i: nat)
    requires i < 12
    ensures Shifted(SixShifts(AtRound(i))[6]) == AtRound(i + 1)
  {
  }

  lemma SevenShiftsLate(i: nat)
    requires 12 <= i < 24
    ensures Shifted(SixShifts(AtRound(i))[6]) == AtRound(i + 1)
  {
  }

  lemma SevenShifts(i: nat)
    requires i < 24
    ensures Shifted(SixShifts(AtRound(i))[6]) == AtRound(i + 1)
  {
    if i < 12 {
      SevenShiftsEarly(i);
    } else {
      SevenShiftsLate(i);
    }
  }

  lemma ShiftOn(i: nat, k: nat)
    ensures Register(7 * i + k + 1) == Shifted(Register(7 * i + k))
  {
  }

  lemma OneRound(i: nat)
    ensures Register(7 * i + 1) == SixShifts(Register(7 * i))[1]
    ensures Register(7 * i + 2) == SixShifts(Register(7 * i))[2]
    ensures Register(7 * i + 3) == SixShifts(Register(7 * i))[3]
    ensures Register(7 * i + 4) == SixShifts(Register(7 * i))[4]
    ensures Register(7 * i + 5) == SixShifts(Register(7 * i))[5]
    ensures Register(7 * i + 6) == SixShifts(Register(7 * i))[6]
    ensures Register(7 * (i + 1)) == Shifted(SixShifts(Register(7 * i))[6])
  {
    ShiftOn(i, 0);
    ShiftOn(i, 1);
    ShiftOn(i, 2);
    ShiftOn(i, 3);
    ShiftOn(i, 4);
    ShiftOn(i, 5);
    ShiftOn(i, 6);
  }

  lemma {:induction false} RegisterAtRound(i: nat)
    requires i <= 24
    ensures Register(7 * i) == AtRound(i)
  {
    if i > 0 {
      RegisterAtRound(i - 1);
      OneRound(i - 1);
      SevenShifts(i - 1);
    }
  }

  lemma FromShiftsFirst(i: nat)
    requires i < 6
    ensures RoundConstant(i) == OfShifts(SixShifts(AtRound(i)))
  {
  }

  lemma FromShiftsSecond(i: nat)
    requires 6 <= i < 12
    ensures RoundConstant(i) == OfShifts(SixShifts(AtRound(i)))
  {
  }

  lemma FromShiftsThird(i: nat)
    requires 12 <= i < 18
    ensures RoundConstant(i) == OfShifts(SixShifts(AtRound(i)))
  {
  }

  lemma FromShiftsLast(i: nat)
    requires 18 <= i < 24
    ensures RoundConstant(i) == OfShifts(SixShifts(AtRound(i)))
  {
  }

  lemma OfRegister(i: nat)
    ensures StandardConstant(i) == OfShifts(SixShifts(Register(7 * i)))
  {
    OneRound(i);
    assert SixShifts(Register(7 * i))[0] == Register(7 * i);
  }

  // The 24 constants of both files are those of the standard.
  lemma ConstantsAreStandard(i: nat)
    requires i < 24
    ensures RoundConstant(i) == StandardConstant(i)
  {
    RegisterAtRound(i);
    OfRegister(i);
    if i < 6 {
      FromShiftsFirst(i);
    } else if i < 12 {
      FromShiftsSecond(i);
    } else if i < 18 {
      FromShiftsThird(i);
    } else {
      FromShiftsLast(i);
    }
  }

  // ---- bits ----

  // Section 3.2.5: rc(7i + j) at bit 2^j - 1.
  function ConstantBit(i: nat, z: nat): bool {
    match z
    case 0 => Rc(7 * i)
    case 1 => Rc(7 * i + 1)
    case 3 => Rc(7 * i + 2)
    case 7 => Rc(7 * i + 3)
    case 15 => Rc(7 * i + 4)
    case 31 => Rc(7 * i + 5)
    case 63 => Rc(7 * i + 6)
    case _ => false
  }

  function ConstantBits(): (c: Constants)
    ensures |c| == 24
  {
    seq(24, (i: nat) => (z: nat) => ConstantBit(i, z))
  }

  lemma FlagBit(r0: bool, r1: bool, r2: bool, r3: bool, r4: bool, r5: bool, r6: bool, z: nat)
    requires z < 64
    ensures Bit64(Flags(r0, r1, r2, r3, r4, r5, r6), z) ==
      match z
      case 0 => r0
      case 1 => r1
      case 3 => r2
      case 7 => r3
      case 15 => r4
      case 31 => r5
      case 63 => r6
      case _ => false
  {
    FlagBitAt(r0, r1, r2, r3, r4, r5, r6, Distance(z));
    DistanceIs(z);
  }

  lemma ConstantsAreBits()
    ensures ConstantsStand(Bit64, RoundConstants(), ConstantBits())
  {
    forall r: nat | r < 24
      ensures ConstantAt(Bit64, RoundConstants(), ConstantBits(), r)
    {
      forall z: nat | z < 64
        ensures ConstantBit(r, z) == Bit64(RoundConstant(r), z)
      {
        ConstantsAreStandard(r);
        FlagBit(Rc(7 * r), Rc(7 * r + 1), Rc(7 * r + 2), Rc(7 * r + 3), Rc(7 * r + 4), Rc(7 * r + 5), Rc(7 * r + 6), z);
      }
    }
  }

  lemma LoadedBits(b: seq<bv8>, z: nat)
    requires |b| == 8 && z < 64
    ensures Bits(b)[z] == Bit64(Load64(b), z)
  {
    StoreLoaded(b);
    StoredBits(Load64(b), z);
  }

  // The operations on words are those on bits.
  lemma WordsHaveBits()
    ensures BitsAreRight(WORDS64, Bit64) && StoresEight(WORDS64)
  {
    forall x: bv64, y: bv64, z: nat
      ensures XorRight(WORDS64, Bit64, x, y, z)
    {
      Xor64Bit(x, y, z);
    }
    forall x: bv64, y: bv64, v: bv64, z: nat
      ensures ChiRight(WORDS64, Bit64, x, y, v, z)
    {
      Chi64Bit(x, y, v, z);
    }
    forall x: bv64, n: nat, z: nat
      ensures RotlRight(WORDS64, Bit64, x, n, z)
    {
      RotationBit(x, n, z);
    }
    forall z: nat
      ensures !Bit64(WORDS64.zero, z)
    {
      ZeroBit(z);
    }
    forall x: bv64, z: nat | z < 64
      ensures StoreRight(WORDS64, Bit64, x, z)
    {
      StoredBits(x, z);
    }
    forall b: seq<bv8>, z: nat | z < 64
      ensures LoadRight(WORDS64, Bit64, b, z)
    {
      if |b| == 8 {
        LoadedBits(b, z);
      }
    }
  }

  // ---- on 64-bit words ----

  // The permutation of 25 words is Keccak-f[1600] on their bits.
  lemma PermutationIsStandard(s: seq<bv64>, a: State)
    requires Stands(Bit64, s, a)
    ensures Stands(Bit64, Permute(LANES64, s, RoundConstants(), 24), PermuteOn(a, ConstantBits(), 24))
  {
    WordsHaveBits();
    ConstantsAreBits();
    PermutationBits(WORDS64, Bit64, s, a, RoundConstants(), ConstantBits(), 24);
  }

  // For every message, and every rate that is a whole number of words, the bytes of the state
  // are the bits of the sponge of the standard.
  lemma SpongeIsStandard(data: seq<bv8>, rate: nat)
    requires 0 < rate <= 200 && rate % 8 == 0 && StoresEight(WORDS64)
    ensures Bits(Squeezed(WORDS64, RoundConstants(), data, rate)) == SpongeOn(ConstantBits(), Bits(data), 8 * rate)
  {
    WordsHaveBits();
    ConstantsAreBits();
    SpongeBits(WORDS64, Bit64, RoundConstants(), ConstantBits(), data, rate);
  }

  // On every state, the unrolled form and the table-driven form leave the same 25 words:
  // those of the permutation of the standard.
  method BothForms(st: array<bv64>, s: array<bv64>)
    requires st.Length == 25 && s.Length == 25 && st != s && st[..] == s[..]
    modifies st, s
    ensures st[..] == s[..] == Permute(LANES64, old(st[..]), RoundConstants(), |RoundConstants()|)
  {
    SelectsAreChi();
    PermuteBoth(st, s, LANES64, RoundConstants());
  }

  lemma DigestBits(data: seq<bv8>, rate: nat, md: seq<bv8>, n: nat)
    requires 0 < rate <= 200 && rate % 8 == 0 && StoresEight(WORDS64) && n <= 200
    requires md == Squeezed(WORDS64, RoundConstants(), data, rate)[..n]
    ensures Bits(md) == SpongeOn(ConstantBits(), Bits(data), 8 * rate)[..8 * n] && |md| == n
  {
    SpongeIsStandard(data, rate);
    FirstBits(Squeezed(WORDS64, RoundConstants(), data, rate), n);
  }

  // The digest of any message, for the output lengths whose blocks are whole words: the first
  // bits that the sponge of the standard gives.
  method Digest(data: seq<bv8>, mdlen: nat) returns (md: seq<bv8>)
    requires mdlen == 200 || (28 <= mdlen < 100 && mdlen % 4 == 0)
    ensures |md| == mdlen && Bits(md) == SpongeOn(ConstantBits(), Bits(data), 8 * Rate(mdlen))[..8 * mdlen]
  {
    WordsHaveBits();
    md := Keccak(data, mdlen, WORDS64, RoundConstants());
    DigestBits(data, Rate(mdlen), md, mdlen);
  }

  // The first 136-byte block, absorbed by the sponge and by the kernel: the same 200 bytes.
  method BothSponges(input: seq<bv8>) returns (md: seq<bv8>, spad: seq<bv8>)
    requires |input| < 136
    ensures md == spad && Bits(md) == SpongeOn(ConstantBits(), Bits(input), 1088)
  {
    SelectsAreChi();
    ZerosAreNeutral();
    md := Keccak(input, 200, WORDS64, RoundConstants());
    var state := AbsorbInKernel(input, WORDS64, RoundConstants());
    spad := BytesOf(WORDS64, state);
    SpongeIsStandard(input, 136);
  }
}
