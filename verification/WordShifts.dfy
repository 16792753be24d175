// Words of 64 bits: a bit of a word, rotation, and the eight bytes of a word, each at a
// distance of six bits. Kept apart from everything else, which makes it quick to check.

module WordShifts {

  predicate BitAt(x: bv64, b: bv6) {
    (x >> b) & 1 == 1
  }

  function Rotated(x: bv64, y: bv6): bv64 {
    (x << y) | (x >> (64 - (y as bv7)))
  }

  function ByteAt(x: bv64, b: bv6): bv8 {
    ((x >> b) & 0xFF) as bv8
  }

  predicate ByteHas(byte: bv8, k: bv6)
    requires k < 8
  {
    (byte >> k) & 1 == 1
  }

  function Joined(b0: bv8, b1: bv8, b2: bv8, b3: bv8, b4: bv8, b5: bv8, b6: bv8, b7: bv8): bv64 {
    (b0 as bv64) | ((b1 as bv64) << 8) | ((b2 as bv64) << 16) | ((b3 as bv64) << 24)
    | ((b4 as bv64) << 32) | ((b5 as bv64) << 40) | ((b6 as bv64) << 48) | ((b7 as bv64) << 56)
  }

  // ---- bits of the operations ----

  lemma XorBitAt(x: bv64, y: bv64, b: bv6)
    ensures BitAt(x ^ y, b) == (BitAt(x, b) != BitAt(y, b))
  {
  }

  lemma ChiBitAt(x: bv64, y: bv64, z: bv64, b: bv6)
    ensures BitAt(x ^ (!y & z), b) == (BitAt(x, b) != (!BitAt(y, b) && BitAt(z, b)))
  {
  }

  lemma ZeroBitAt(b: bv6)
    ensures !BitAt(0, b)
  {
  }

  lemma RotationFromByte0(x: bv64, y: bv6, b: bv6)
    requires b >> 3 == 0
    ensures (((x << y) | (x >> (64 - (y as bv7)))) >> (b + y)) & 1 == (x >> b) & 1
  {
  }

  lemma RotationFromByte1(x: bv64, y: bv6, b: bv6)
    requires b >> 3 == 1
    ensures (((x << y) | (x >> (64 - (y as bv7)))) >> (b + y)) & 1 == (x >> b) & 1
  {
  }

  lemma RotationFromByte2(x: bv64, y: bv6, b: bv6)
    requires b >> 3 == 2
    ensures (((x << y) | (x >> (64 - (y as bv7)))) >> (b + y)) & 1 == (x >> b) & 1
  {
  }

  lemma RotationFromByte3(x: bv64, y: bv6, b: bv6)
    requires b >> 3 == 3
    ensures (((x << y) | (x >> (64 - (y as bv7)))) >> (b + y)) & 1 == (x >> b) & 1
  {
  }

  lemma RotationFromByte4(x: bv64, y: bv6, b: bv6)
    requires b >> 3 == 4
    ensures (((x << y) | (x >> (64 - (y as bv7)))) >> (b + y)) & 1 == (x >> b) & 1
  {
  }

  lemma RotationFromByte5(x: bv64, y: bv6, b: bv6)
    requires b >> 3 == 5
    ensures (((x << y) | (x >> (64 - (y as bv7)))) >> (b + y)) & 1 == (x >> b) & 1
  {
  }

  lemma RotationFromByte6(x: bv64, y: bv6, b: bv6)
    requires b >> 3 == 6
    ensures (((x << y) | (x >> (64 - (y as bv7)))) >> (b + y)) & 1 == (x >> b) & 1
  {
  }

  lemma RotationFromByte7(x: bv64, y: bv6, b: bv6)
    requires b >> 3 == 7
    ensures (((x << y) | (x >> (64 - (y as bv7)))) >> (b + y)) & 1 == (x >> b) & 1
  {
  }

  // Rotation moves every bit up by the distance, around the end of the word.
  lemma RotatedBit(x: bv64, y: bv6, b: bv6)
    ensures (((x << y) | (x >> (64 - (y as bv7)))) >> (b + y)) & 1 == (x >> b) & 1
  {
    match b >> 3
    case 0 => RotationFromByte0(x, y, b);
    case 1 => RotationFromByte1(x, y, b);
    case 2 => RotationFromByte2(x, y, b);
    case 3 => RotationFromByte3(x, y, b);
    case 4 => RotationFromByte4(x, y, b);
    case 5 => RotationFromByte5(x, y, b);
    case 6 => RotationFromByte6(x, y, b);
    case _ => RotationFromByte7(x, y, b);
  }

  lemma RotatedBitIn(x: bv64, y: bv6, b: bv6, r: bv64, d: bv6)
    requires r == (x << y) | (x >> (64 - (y as bv7))) && d == b + y
    ensures BitAt(r, d) == BitAt(x, b)
  {
    RotatedBit(x, y, b);
  }

  lemma RotationBitAt(x: bv64, y: bv6, b: bv6)
    ensures BitAt(Rotated(x, y), b + y) == BitAt(x, b)
  {
    RotatedBitIn(x, y, b, Rotated(x, y), b + y);
  }

  // ---- bytes ----

  lemma BytesJoin(x: bv64)
    ensures Joined(ByteAt(x, 0), ByteAt(x, 8), ByteAt(x, 16), ByteAt(x, 24),
                   ByteAt(x, 32), ByteAt(x, 40), ByteAt(x, 48), ByteAt(x, 56)) == x
  {
  }

  lemma JoinedBytes(b0: bv8, b1: bv8, b2: bv8, b3: bv8, b4: bv8, b5: bv8, b6: bv8, b7: bv8)
    ensures var x := Joined(b0, b1, b2, b3, b4, b5, b6, b7);
      && ByteAt(x, 0) == b0 && ByteAt(x, 8) == b1 && ByteAt(x, 16) == b2 && ByteAt(x, 24) == b3
      && ByteAt(x, 32) == b4 && ByteAt(x, 40) == b5 && ByteAt(x, 48) == b6 && ByteAt(x, 56) == b7
  {
  }

  // Bit k of a byte within the word.
  lemma ByteBit(x: bv64, d: bv6, k: bv6, byte: bv8)
    requires d <= 56 && k < 8 && byte == ((x >> d) & 0xFF) as bv8
    ensures ByteHas(byte, k) == BitAt(x, d + k)
  {
  }

  lemma ByteBitAt(x: bv64, d: bv6, k: bv6)
    requires d <= 56 && k < 8
    ensures ByteHas(ByteAt(x, d), k) == BitAt(x, d + k)
  {
    ByteBit(x, d, k, ByteAt(x, d));
  }

  // ---- round constants ----

  function Flag(on: bool, word: bv64): bv64 {
    if on then word else 0
  }

  function Flags(r0: bool, r1: bool, r2: bool, r3: bool, r4: bool, r5: bool, r6: bool): bv64 {
    Flag(r0, 0x1) | Flag(r1, 0x2) | Flag(r2, 0x8) | Flag(r3, 0x80) | Flag(r4, 0x8000)
    | Flag(r5, 0x8000_0000) | Flag(r6, 0x8000_0000_0000_0000)
  }

  // The flags are at bits 2^j - 1.
  lemma FlagBitAt(r0: bool, r1: bool, r2: bool, r3: bool, r4: bool, r5: bool, r6: bool, b: bv6)
    ensures BitAt(Flags(r0, r1, r2, r3, r4, r5, r6), b) ==
      match b
      case 0 => r0
      case 1 => r1
      case 3 => r2
      case 7 => r3
      case 15 => r4
      case 31 => r5
      case 63 => r6
      case _ => false
  {
  }
}
