// The proof as c29.cpp serialises it: 29 bits of every nonce, one after another, in bytes
// filled from the least significant bit.

module NoncePacking {
  import opened ByteBits
  import opened Numbers
  import opened Words

  const EDGE_BITS: nat := 29
  const FIELD: nat := 0x2000_0000    // 2^29

  function NonceBit(n: nat, b: nat): bool {
    PowPositive(2, b);
    n / Pow(2, b) % 2 == 1
  }

  function PackedLength(n: nat): nat {
    (n * EDGE_BITS + 7) / 8
  }

  // What bit i of the stream should be.
  function StreamBit(nonces: seq<uint32>, i: nat): bool {
    i < EDGE_BITS * |nonces| && NonceBit(nonces[i / EDGE_BITS], i % EDGE_BITS)
  }

  lemma StreamBitOf(nonces: seq<uint32>, k: nat, b: nat)
    requires k < |nonces| && b < EDGE_BITS
    ensures EDGE_BITS * k + b < EDGE_BITS * |nonces| <= 8 * PackedLength(|nonces|)
    ensures StreamBit(nonces, EDGE_BITS * k + b) == NonceBit(nonces[k], b)
  {
  }

  // The bits of one nonce.
  method PackNonce(packed: array<bv8>, nonce: uint32, bitPos: nat, ghost nonces: seq<uint32>, ghost k: nat)
    requires packed.Length == PackedLength(|nonces|) && k < |nonces| && nonces[k] == nonce
    requires bitPos == EDGE_BITS * k && Filled(packed[..], nonces, bitPos)
    modifies packed
    ensures Filled(packed[..], nonces, EDGE_BITS * (k + 1))
  {
    for bit := 0 to EDGE_BITS
      invariant Filled(packed[..], nonces, bitPos + bit)
    {
      StreamBitOf(nonces, k, bit);
      ghost var before := packed[..];
      if NonceBit(nonce, bit) {
        var byteIdx := (bitPos + bit) / 8;
        var bitIdx := (bitPos + bit) % 8;
        packed[byteIdx] := packed[byteIdx] | Mask(bitIdx);
        assert packed[..] == before[byteIdx := before[byteIdx] | Mask(bitIdx)];
      }
      FillBit(before, packed[..], nonces, k, bit);
    }
  }

  // Bit b of nonce k is bit 29 * k + b of the stream, and nothing else is set.
  method Pack(nonces: seq<uint32>) returns (bytes: seq<bv8>)
    ensures |bytes| == PackedLength(|nonces|)
    ensures forall i :: 0 <= i < 8 * |bytes| ==> Bits(bytes)[i] == StreamBit(nonces, i)
  {
    var packed := new bv8[PackedLength(|nonces|)](_ => 0);
    var bitPos := 0;
    for k := 0 to |nonces|
      invariant bitPos == EDGE_BITS * k
      invariant Filled(packed[..], nonces, bitPos)
    {
      PackNonce(packed, nonces[k], bitPos, nonces, k);
      bitPos := bitPos + EDGE_BITS;
    }
    bytes := packed[..];
  }

  // The stream up to pos is written, the rest is clear.
  ghost predicate Filled(bytes: seq<bv8>, nonces: seq<uint32>, pos: nat) {
    forall i :: 0 <= i < 8 * |bytes| ==> Bits(bytes)[i] == (i < pos && StreamBit(nonces, i))
  }

  lemma FillBit(before: seq<bv8>, after: seq<bv8>, nonces: seq<uint32>, k: nat, bit: nat)
    requires k < |nonces| && bit < EDGE_BITS && |before| == PackedLength(|nonces|)
    requires var pos := EDGE_BITS * k + bit;
      && pos < 8 * |before| && Filled(before, nonces, pos)
      && after == if NonceBit(nonces[k], bit) then before[pos / 8 := before[pos / 8] | Mask(pos % 8)] else before
    ensures Filled(after, nonces, EDGE_BITS * k + bit + 1)
  {
    StreamBitOf(nonces, k, bit);
    FillOne(before, after, nonces, EDGE_BITS * k + bit);
  }

  lemma FillOne(before: seq<bv8>, after: seq<bv8>, nonces: seq<uint32>, pos: nat)
    requires Filled(before, nonces, pos) && pos < 8 * |before|
    requires after == if StreamBit(nonces, pos) then before[pos / 8 := before[pos / 8] | Mask(pos % 8)] else before
    ensures Filled(after, nonces, pos + 1)
  {
    forall i | 0 <= i < 8 * |after|
      ensures Bits(after)[i] == (i < pos + 1 && StreamBit(nonces, i))
    {
      assert Bits(before)[i] == Bit(before[i / 8], i % 8) == (i < pos && StreamBit(nonces, i));
      assert Bits(after)[i] == Bit(after[i / 8], i % 8);
      OneBit(before[i / 8], pos, i);
    }
  }

  lemma OneBit(y: bv8, pos: nat, i: nat)
    ensures i / 8 == pos / 8 ==> Bit(y | Mask(pos % 8), i % 8) == (i == pos || Bit(y, i % 8))
  {
    SetBit(y, pos % 8, i % 8);
  }

  // ---- reading it back ----

  function Number(bits: seq<bool>): nat {
    if |bits| == 0 then 0 else (if bits[0] then 1 else 0) + 2 * Number(bits[1..])
  }

  function Unpack(bits: seq<bool>, n: nat): (r: seq<nat>)
    requires EDGE_BITS * n <= |bits|
    ensures |r| == n
  {
    seq(n, k requires 0 <= k < n => Number(bits[EDGE_BITS * k..EDGE_BITS * k + EDGE_BITS]))
  }

  lemma HalfBit(n: nat, b: nat)
    ensures NonceBit(n, b + 1) == NonceBit(n / 2, b)
  {
    PowPositive(2, b);
    DivideTwice(n, 2, Pow(2, b));
  }

  lemma DivideTwice(n: nat, x: nat, y: nat)
    requires x > 0 && y > 0
    ensures x * y > 0 && n / (x * y) == n / x / y
  {
    var q, r := n / x, n % x;
    assert q == y * (q / y) + q % y;
    assert n == x * q + r;
    assert x * q == x * (y * (q / y)) + x * (q % y);
    assert x * (y * (q / y)) == (q / y) * (x * y);
    assert x * (q % y) + r < x * y by { assert x * (q % y) <= x * (y - 1); }
    DivisionIs(n, x * y, q / y, x * (q % y) + r);
  }

  function Low(n: nat, w: nat): nat {
    PowPositive(2, w);
    n % Pow(2, w)
  }

  lemma LowField(n: nat)
    ensures Low(n, EDGE_BITS) == n % FIELD
  {
    TwoTo29();
  }

  lemma {:induction false} NumberOfBits(n: nat, bits: seq<bool>)
    requires forall b :: 0 <= b < |bits| ==> bits[b] == NonceBit(n, b)
    ensures Number(bits) == Low(n, |bits|)
    decreases |bits|
  {
    PowPositive(2, |bits|);
    if |bits| > 0 {
      forall b | 0 <= b < |bits[1..]|
        ensures bits[1..][b] == NonceBit(n / 2, b)
      {
        HalfBit(n, b);
      }
      NumberOfBits(n / 2, bits[1..]);
      assert NonceBit(n, 0) == (n % 2 == 1);
      DoubleModulo(n, Pow(2, |bits| - 1));
    }
  }

  lemma DoubleModulo(n: nat, m: nat)
    requires m > 0
    ensures n % (2 * m) == n % 2 + 2 * (n / 2 % m)
  {
    var h := n / 2;
    assert h == m * (h / m) + h % m;
    assert 2 * (m * (h / m)) == (h / m) * (2 * m);
    DivisionIs(n, 2 * m, h / m, n % 2 + 2 * (h % m));
  }

  // What is read back is every nonce cut to 29 bits.
  lemma UnpackPacked(nonces: seq<uint32>, bits: seq<bool>, k: nat)
    requires |bits| == 8 * PackedLength(|nonces|) && k < |nonces|
    requires forall i :: 0 <= i < |bits| ==> bits[i] == StreamBit(nonces, i)
    ensures Unpack(bits, |nonces|)[k] == nonces[k] % FIELD
  {
    StreamBitOf(nonces, k, EDGE_BITS - 1);
    var field := bits[EDGE_BITS * k..EDGE_BITS * k + EDGE_BITS];
    forall b | 0 <= b < |field|
      ensures field[b] == NonceBit(nonces[k], b)
    {
      StreamBitOf(nonces, k, b);
    }
    NumberOfBits(nonces[k], field);
    LowField(nonces[k]);
  }

  lemma FitsField(n: nat)
    ensures n % FIELD == n <==> n < FIELD
  {
  }

  // Packing is undone for every list exactly when each nonce fits its field.
  lemma RoundTrip(nonces: seq<uint32>, bytes: seq<bv8>)
    requires |bytes| == PackedLength(|nonces|)
    requires forall i :: 0 <= i < 8 * |bytes| ==> Bits(bytes)[i] == StreamBit(nonces, i)
    ensures Unpack(Bits(bytes), |nonces|) == nonces
       <==> forall k :: 0 <= k < |nonces| ==> nonces[k] < FIELD
  {
    forall k | 0 <= k < |nonces|
      ensures Unpack(Bits(bytes), |nonces|)[k] == nonces[k] % FIELD
    {
      UnpackPacked(nonces, Bits(bytes), k);
    }
    forall k | 0 <= k < |nonces|
      ensures nonces[k] % FIELD == nonces[k] <==> nonces[k] < FIELD
    {
      FitsField(nonces[k]);
    }
  }

  // Hence the bytes hashed identify the proof.
  lemma PackingIsInjective(a: seq<uint32>, b: seq<uint32>, bytes: seq<bv8>)
    requires |a| == |b| && |bytes| == PackedLength(|a|)
    requires forall k :: 0 <= k < |a| ==> a[k] < FIELD && b[k] < FIELD
    requires forall i :: 0 <= i < 8 * |bytes| ==> Bits(bytes)[i] == StreamBit(a, i) == StreamBit(b, i)
    ensures a == b
  {
    RoundTrip(a, bytes);
    RoundTrip(b, bytes);
  }

  // ---- the bytes as one number ----

  // Nonce k counts 2^(29 k).
  function Concatenated(nonces: seq<uint32>): nat {
    if |nonces| == 0 then 0 else nonces[0] % FIELD + FIELD * Concatenated(nonces[1..])
  }

  // Byte i counts 256^i.
  function BytesNumber(bytes: seq<bv8>): nat {
    if |bytes| == 0 then 0 else (bytes[0] as nat) + 256 * BytesNumber(bytes[1..])
  }

  lemma {:induction false} NumberSplits(a: seq<bool>, b: seq<bool>)
    ensures Number(a + b) == Number(a) + Pow(2, |a|) * Number(b)
    decreases |a|
  {
    if |a| == 0 {
      assert a + b == b;
    } else {
      NumberSplits(a[1..], b);
      assert (a + b)[1..] == a[1..] + b && (a + b)[0] == a[0];
      MulAssociates(2, Pow(2, |a| - 1), Number(b));
    }
  }

  lemma {:induction false} NumberOfClear(bits: seq<bool>)
    requires forall i :: 0 <= i < |bits| ==> !bits[i]
    ensures Number(bits) == 0
  {
    if |bits| > 0 {
      NumberOfClear(bits[1..]);
    }
  }

  lemma EightBits(bits: seq<bool>, y: bv8)
    requires |bits| == 8 && forall b :: 0 <= b < 8 ==> bits[b] == Bit(y, b)
    ensures Number(bits) == y as nat
  {
    ByteOfBits(y);
    NextBitOf(bits);
    NextBitOf(bits[1..]);
    NextBitOf(bits[2..]);
    NextBitOf(bits[3..]);
    NextBitOf(bits[4..]);
    NextBitOf(bits[5..]);
    NextBitOf(bits[6..]);
    NextBitOf(bits[7..]);
    assert bits[1..][1..] == bits[2..] && bits[2..][1..] == bits[3..] && bits[3..][1..] == bits[4..];
    assert bits[4..][1..] == bits[5..] && bits[5..][1..] == bits[6..] && bits[6..][1..] == bits[7..];
    assert bits[7..][1..] == [];
  }

  lemma NextBitOf(bits: seq<bool>)
    requires |bits| > 0
    ensures Number(bits) == (if bits[0] then 1 else 0) + 2 * Number(bits[1..])
  {
  }

  lemma {:induction false} NumberOfBytes(bytes: seq<bv8>)
    ensures Number(Bits(bytes)) == BytesNumber(bytes)
    decreases |bytes|
  {
    if |bytes| > 0 {
      var first, rest := bytes[..1], bytes[1..];
      assert bytes == first + rest;
      BitsConcat(first, rest);
      NumberSplits(Bits(first), Bits(rest));
      EightBits(Bits(first), bytes[0]);
      NumberOfBytes(rest);
      assert Pow(2, 8) == 256;
    }
  }

  lemma FirstField(nonces: seq<uint32>, bits: seq<bool>)
    requires |nonces| > 0 && EDGE_BITS <= |bits| && forall i :: 0 <= i < |bits| ==> bits[i] == StreamBit(nonces, i)
    ensures Number(bits) == nonces[0] % FIELD + FIELD * Number(bits[EDGE_BITS..])
  {
    var field, rest := bits[..EDGE_BITS], bits[EDGE_BITS..];
    assert bits == field + rest;
    NumberSplits(field, rest);
    forall b | 0 <= b < EDGE_BITS
      ensures field[b] == NonceBit(nonces[0], b)
    {
      StreamBitOf(nonces, 0, b);
    }
    NumberOfBits(nonces[0], field);
    LowField(nonces[0]);
    TwoTo29();
  }

  lemma {:induction false} StreamNumber(nonces: seq<uint32>, bits: seq<bool>)
    requires EDGE_BITS * |nonces| <= |bits| && forall i :: 0 <= i < |bits| ==> bits[i] == StreamBit(nonces, i)
    ensures Number(bits) == Concatenated(nonces)
    decreases |nonces|
  {
    if |nonces| == 0 {
      NumberOfClear(bits);
    } else {
      var rest := bits[EDGE_BITS..];
      FirstField(nonces, bits);
      forall i | 0 <= i < |rest|
        ensures rest[i] == StreamBit(nonces[1..], i)
      {
        LaterBit(nonces, i);
      }
      StreamNumber(nonces[1..], rest);
    }
  }

  lemma TwoTo29()
    ensures Pow(2, EDGE_BITS) == FIELD
  {
    TwoTo32();
    PowAdd(2, 29, 3);
    assert Pow(2, 3) == 8;
  }

  lemma LaterBit(nonces: seq<uint32>, i: nat)
    requires |nonces| > 0
    ensures StreamBit(nonces, EDGE_BITS + i) == StreamBit(nonces[1..], i)
  {
    assert (EDGE_BITS + i) / EDGE_BITS == 1 + i / EDGE_BITS && (EDGE_BITS + i) % EDGE_BITS == i % EDGE_BITS;
  }

  // The bytes, the first one lowest, are one number: the nonces cut to 29 bits, each above the
  // one before.
  lemma PackedIsNumber(nonces: seq<uint32>, bytes: seq<bv8>)
    requires |bytes| == PackedLength(|nonces|)
    requires forall i :: 0 <= i < 8 * |bytes| ==> Bits(bytes)[i] == StreamBit(nonces, i)
    ensures BytesNumber(bytes) == Concatenated(nonces)
  {
    NumberOfBytes(bytes);
    StreamNumber(nonces, Bits(bytes));
  }
}
