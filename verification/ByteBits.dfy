// Byte strings as bit strings, the least significant bit of each byte first.

module ByteBits {

  function Mask(b: nat): bv8 {
    match b
    case 0 => 0x01 case 1 => 0x02 case 2 => 0x04 case 3 => 0x08
    case 4 => 0x10 case 5 => 0x20 case 6 => 0x40 case _ => 0x80
  }

  function Bit(y: bv8, b: nat): bool {
    y & Mask(b) != 0
  }

  function Bits(data: seq<bv8>): (r: seq<bool>)
    ensures |r| == 8 * |data|
  {
    seq(8 * |data|, i requires 0 <= i < 8 * |data| => Bit(data[i / 8], i % 8))
  }

  // Bit b of a byte counts 2^b.
  lemma ByteOfBits(y: bv8)
    ensures y as nat == BitValue(y, 0) + BitValue(y, 1) + BitValue(y, 2) + BitValue(y, 3)
      + BitValue(y, 4) + BitValue(y, 5) + BitValue(y, 6) + BitValue(y, 7)
  {
  }

  function BitValue(y: bv8, b: nat): nat {
    if !Bit(y, b) then 0
    else
      match b
      case 0 => 1 case 1 => 2 case 2 => 4 case 3 => 8
      case 4 => 16 case 5 => 32 case 6 => 64 case _ => 128
  }

  lemma BitsConcat(a: seq<bv8>, b: seq<bv8>)
    ensures Bits(a + b) == Bits(a) + Bits(b)
  {
    forall i | 0 <= i < 8 * |a| + 8 * |b|
      ensures Bits(a + b)[i] == (Bits(a) + Bits(b))[i]
    {
      if i >= 8 * |a| {
        assert i / 8 == |a| + (i - 8 * |a|) / 8 && i % 8 == (i - 8 * |a|) % 8;
      }
    }
  }

  lemma SetBit(y: bv8, b: nat, c: nat)
    requires b < 8 && c < 8
    ensures Bit(y | Mask(b), c) == (b == c || Bit(y, c))
  {
  }
}
