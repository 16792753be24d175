// The 64-bit operations of the source and the bits they move: exclusive or, the row function
// of chi, rotation, and words in memory with their lowest byte first.

module WordBits {
  import opened ByteBits
  import opened WordShifts

  // n modulo 64, as a distance to shift by.
  function Distance(n: nat): bv6 {
    if n == 0 then 0 else Distance(n - 1) + 1
  }

  // Bit j of a word, counted modulo 64.
  predicate Bit64(x: bv64, j: nat) {
    BitAt(x, Distance(j))
  }

  function Rotl64(x: bv64, n: nat): bv64 {
    Rotated(x, Distance(n))
  }

  function Xor64(x: bv64, y: bv64): bv64 {
    x ^ y
  }

  function Chi64(x: bv64, y: bv64, z: bv64): bv64 {
    x ^ (!y & z)
  }

  // bitselect(a, b, c): the bits of b where c is set, those of a elsewhere.
  function BitSelect64(a: bv64, b: bv64, c: bv64): bv64 {
    (a & !c) | (b & c)
  }

  function Load64(b: seq<bv8>): bv64 {
    if |b| != 8 then 0 else Joined(b[0], b[1], b[2], b[3], b[4], b[5], b[6], b[7])
  }

  // Byte i is at distance 8 * i.
  function ByteDistance(i: nat): bv6 {
    match i
    case 0 => 0 case 1 => 8 case 2 => 16 case 3 => 24 case 4 => 32 case 5 => 40 case 6 => 48 case _ => 56
  }

  function Byte64(x: bv64, i: nat): bv8 {
    ByteAt(x, ByteDistance(i))
  }

  function Store64(x: bv64): (r: seq<bv8>)
    ensures |r| == 8
  {
    seq(8, i requires 0 <= i < 8 => Byte64(x, i))
  }

  // ---- distances ----

  lemma {:induction false} DistancesAdd(a: nat, b: nat)
    ensures Distance(a + b) == Distance(a) + Distance(b)
    decreases b
  {
    if b > 0 {
      DistancesAdd(a, b - 1);
    }
  }

  lemma {:induction false} DistanceIs(n: nat)
    requires n < 64
    ensures Distance(n) as nat == n
  {
    if n > 0 {
      DistanceIs(n - 1);
      NextDistance(Distance(n - 1));
    }
  }

  lemma NextDistance(b: bv6)
    requires b as nat < 63
    ensures (b + 1) as nat == b as nat + 1
  {
  }

  lemma LastDistance(b: bv6)
    requires b as nat == 63
    ensures b + 1 == 0
  {
  }

  lemma DistanceWraps(n: nat)
    ensures Distance(n + 64) == Distance(n)
  {
    DistanceIs(63);
    LastDistance(Distance(63));
    DistancesAdd(n, 64);
  }

  lemma {:induction false} DistanceModulo(n: nat)
    ensures Distance(n % 64) == Distance(n)
    decreases n
  {
    if n >= 64 {
      DistanceModulo(n - 64);
      DistanceWraps(n - 64);
      assert (n - 64) % 64 == n % 64;
    }
  }

  // ---- bits ----

  lemma Xor64Bit(x: bv64, y: bv64, j: nat)
    ensures Bit64(Xor64(x, y), j) == (Bit64(x, j) != Bit64(y, j))
  {
    XorBitAt(x, y, Distance(j));
  }

  lemma Chi64Bit(x: bv64, y: bv64, z: bv64, j: nat)
    ensures Bit64(Chi64(x, y, z), j) == (Bit64(x, j) != (!Bit64(y, j) && Bit64(z, j)))
  {
    ChiBitAt(x, y, z, Distance(j));
  }

  lemma ZeroBit(j: nat)
    ensures !Bit64(0, j)
  {
    ZeroBitAt(Distance(j));
  }

  // Rotation moves every bit up by the distance, around the end of the word.
  lemma RotationBit(x: bv64, n: nat, j: nat)
    ensures Bit64(Rotl64(x, n), (j + n) % 64) == Bit64(x, j)
  {
    RotationBitAt(x, Distance(n), Distance(j));
    DistancesAdd(j, n);
    DistanceModulo(j + n);
  }

  // ---- bytes ----

  lemma MaskBit(y: bv8, b: nat)
    requires b < 8
    ensures Distance(b) < 8 && Bit(y, b) == ByteHas(y, Distance(b))
  {
    assert Distance(0) == 0 && Distance(1) == 1 && Distance(2) == 2 && Distance(3) == 3;
    assert Distance(4) == 4 && Distance(5) == 5 && Distance(6) == 6 && Distance(7) == 7;
  }

  lemma {:induction false} ByteDistanceIs(i: nat)
    requires i < 8
    ensures Distance(8 * i) == ByteDistance(i)
  {
    if i > 0 {
      ByteDistanceIs(i - 1);
      DistancesAdd(8 * (i - 1), 8);
      assert Distance(8) == 8;
    }
  }

  // A byte d bits up: bit b of it is bit e of the word.
  lemma BitOfByte(x: bv64, d: bv6, b: nat, byte: bv8, e: bv6)
    requires d <= 56 && b < 8 && byte == ByteAt(x, d) && e == d + Distance(b)
    ensures Bit(byte, b) == BitAt(x, e)
  {
    MaskBit(byte, b);
    ByteBitAt(x, d, Distance(b));
  }

  lemma DistanceOfBit(i: nat, b: nat)
    requires i < 8
    ensures ByteDistance(i) <= 56 && Distance(8 * i + b) == ByteDistance(i) + Distance(b)
  {
    ByteDistanceIs(i);
    DistancesAdd(8 * i, b);
  }

  lemma StoredBit(x: bv64, i: nat, b: nat)
    requires i < 8 && b < 8
    ensures Bit(Byte64(x, i), b) == Bit64(x, 8 * i + b)
  {
    DistanceOfBit(i, b);
    BitOfByte(x, ByteDistance(i), b, Byte64(x, i), Distance(8 * i + b));
  }

  // Eight bytes in memory hold the bits of the word in order.
  lemma StoredBits(x: bv64, j: nat)
    requires j < 64
    ensures Bits(Store64(x))[j] == Bit64(x, j)
  {
    StoredBit(x, j / 8, j % 8);
    assert 8 * (j / 8) + j % 8 == j;
  }

  lemma LoadStored(x: bv64)
    ensures Load64(Store64(x)) == x
  {
    BytesJoin(x);
  }

  lemma StoreLoaded(b: seq<bv8>)
    requires |b| == 8
    ensures Store64(Load64(b)) == b
  {
    JoinedBytes(b[0], b[1], b[2], b[3], b[4], b[5], b[6], b[7]);
  }
}
