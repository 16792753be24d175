// The sponge of keccak.cpp with its last block padded in place, and the single block that
// the first kernel of cn-gpu.cpp pads directly in the state, against section 4 of FIPS 202
// with the padding pad10*1 of section 5.1.

module KeccakSponge {
  import opened ByteBits
  import opened KeccakSpec
  import opened KeccakInPlace
  import opened Numbers

  // Lanes that can be read from and written to eight bytes.
  datatype Words<!W> = Words(lanes: LaneOps<W>, zero: W, load: seq<bv8> -> W, store: W -> seq<bv8>)

  // ---- padding ----

  function PadBytes(n: nat, rate: nat): (r: seq<bv8>)
    requires 0 < rate
    ensures 0 < |r| == rate - n % rate
  {
    var k := rate - n % rate;
    if k == 1 then [0x81] else [0x01] + seq(k - 2, _ => 0x00) + [0x80]
  }

  function Padded(data: seq<bv8>, rate: nat): (r: seq<bv8>)
    requires 0 < rate
    ensures |data| < |r|
  {
    data + PadBytes(|data|, rate)
  }

  // pad10*1 of section 5.1 for a message of m bits and blocks of x bits.
  function Pad101(x: int, m: int): seq<bool>
    requires 0 < x && 0 <= m
  {
    [true] + seq((-m - 2) % x, _ => false) + [true]
  }

  lemma PadLength(n: nat, rate: nat)
    requires 0 < rate
    ensures (-8 * n - 2) % (8 * rate) == 8 * (rate - n % rate) - 2
  {
    var q := -(n / rate) - 1;
    assert n == rate * (n / rate) + n % rate;
    assert q * (8 * rate) == -8 * (rate * (n / rate)) - 8 * rate;
    DivisionIs(-8 * n - 2, 8 * rate, q, 8 * (rate - n % rate) - 2);
  }

  lemma PadBitAt(n: nat, rate: nat, i: nat)
    requires 0 < rate && i < 8 * (rate - n % rate)
    ensures Bit(PadBytes(n, rate)[i / 8], i % 8) == (i == 0 || i == 8 * (rate - n % rate) - 1)
  {
    var last := rate - n % rate - 1;
    assert i / 8 < last || i / 8 == last;
    assert i == 0 <==> i / 8 == 0 && i % 8 == 0;
    assert i == 8 * last + 7 <==> i / 8 == last && i % 8 == 7;
  }

  lemma PadBits(n: nat, rate: nat)
    requires 0 < rate
    ensures Bits(PadBytes(n, rate)) == Pad101(8 * rate, 8 * n)
  {
    PadLength(n, rate);
    forall i | 0 <= i < 8 * (rate - n % rate)
      ensures Bits(PadBytes(n, rate))[i] == Pad101(8 * rate, 8 * n)[i]
    {
      PadBitAt(n, rate, i);
    }
  }

  // The bytes appended are the bits the standard appends.
  lemma PaddingIsStandard(data: seq<bv8>, rate: nat)
    requires 0 < rate
    ensures Bits(Padded(data, rate)) == Bits(data) + Pad101(8 * rate, 8 * |data|)
  {
    BitsConcat(data, PadBytes(|data|, rate));
    PadBits(|data|, rate);
  }

  lemma PaddedIsWhole(n: nat, rate: nat)
    requires 0 < rate
    ensures (n + |PadBytes(n, rate)|) % rate == 0
  {
    assert n + |PadBytes(n, rate)| == rate * (n / rate + 1) by {
      assert n == rate * (n / rate) + n % rate;
    }
    DivisionIs(n + |PadBytes(n, rate)|, rate, n / rate + 1, 0);
  }

  lemma LessOne(n: nat, rate: nat)
    requires 0 < rate <= n
    ensures (n - rate) % rate == n % rate
  {
    assert n == rate * (n / rate) + n % rate;
    assert n - rate == (n / rate - 1) * rate + n % rate;
    DivisionIs(n - rate, rate, n / rate - 1, n % rate);
  }

  // The first block of a padded message that has a full one.
  lemma PaddedSplits(data: seq<bv8>, rate: nat)
    requires 0 < rate <= |data|
    ensures Padded(data, rate)[..rate] == data[..rate]
    ensures Padded(data, rate)[rate..] == Padded(data[rate..], rate)
  {
    LessOne(|data|, rate);
  }

  // ---- the sponge ----

  function AbsorbBlock<W>(w: Words<W>, s: seq<W>, block: seq<bv8>): (r: seq<W>)
    requires |s| == 25
    ensures |r| == 25
  {
    seq(25, i requires 0 <= i < 25 => AbsorbedLane(w, s, block, i))
  }

  function AbsorbedLane<W>(w: Words<W>, s: seq<W>, block: seq<bv8>, i: nat): W
    requires |s| == 25 && i < 25
  {
    if i < |block| / 8 then w.lanes.xor(s[i], w.load(block[8 * i..8 * i + 8])) else s[i]
  }

  function Absorb<W>(w: Words<W>, rc: seq<W>, s: seq<W>, data: seq<bv8>, rate: nat): (r: seq<W>)
    requires |s| == 25 && 0 < rate
    ensures |r| == 25
    decreases |data|
  {
    if |data| < rate then s
    else Absorb(w, rc, Absorbed(w, rc, s, data[..rate]), data[rate..], rate)
  }

  // One block and the permutation after it.
  function Absorbed<W>(w: Words<W>, rc: seq<W>, s: seq<W>, block: seq<bv8>): (r: seq<W>)
    requires |s| == 25
    ensures |r| == 25
  {
    Permute(w.lanes, AbsorbBlock(w, s, block), rc, |rc|)
  }

  function Rate(mdlen: nat): int {
    if mdlen == 200 then 136 else 200 - 2 * mdlen
  }

  function ZeroState<W>(w: Words<W>): (s: seq<W>)
    ensures |s| == 25
  {
    seq(25, _ => w.zero)
  }

  ghost predicate StoresEight<W(!new)>(w: Words<W>) {
    forall x: W :: |w.store(x)| == 8
  }

  function BytesOf<W(!new)>(w: Words<W>, s: seq<W>): (r: seq<bv8>)
    requires StoresEight(w)
    ensures |r| == 8 * |s|
  {
    if |s| == 0 then [] else BytesOf(w, s[..|s| - 1]) + w.store(s[|s| - 1])
  }

  // The state after the padded message, as bytes.
  function Squeezed<W(!new)>(w: Words<W>, rc: seq<W>, data: seq<bv8>, rate: nat): (r: seq<bv8>)
    requires StoresEight(w) && 0 < rate
    ensures |r| == 200
  {
    BytesOf(w, Absorb(w, rc, ZeroState(w), Padded(data, rate), rate))
  }

  method AbsorbInPlace<W>(st: array<W>, w: Words<W>, block: seq<bv8>)
    requires st.Length == 25 && |block| / 8 <= 25
    modifies st
    ensures st[..] == AbsorbBlock(w, old(st[..]), block)
  {
    ghost var s := st[..];
    for i := 0 to |block| / 8
      invariant forall k :: 0 <= k < i ==> st[k] == AbsorbedLane(w, s, block, k)
      invariant forall k :: i <= k < 25 ==> st[k] == s[k]
    {
      st[i] := w.lanes.xor(st[i], w.load(block[8 * i..8 * i + 8]));
    }
  }

  // The last block: what is left of the message, padded in temp.
  method PadInPlace(temp: array<bv8>, rest: seq<bv8>, rsiz: nat)
    requires |rest| < rsiz <= temp.Length
    modifies temp
    ensures temp[..rsiz] == Padded(rest, rsiz)
  {
    forall i | 0 <= i < |rest| {
      temp[i] := rest[i];
    }
    var inlen := |rest|;
    temp[inlen] := 0x01;
    inlen := inlen + 1;
    forall i | inlen <= i < rsiz {
      temp[i] := 0x00;
    }
    temp[rsiz - 1] := temp[rsiz - 1] | 0x80;
    SmallModulo(|rest|, rsiz);
  }

  lemma AbsorbFirst<W>(w: Words<W>, rc: seq<W>, s: seq<W>, data: seq<bv8>, rate: nat)
    requires |s| == 25 && 0 < rate <= |data|
    ensures Absorb(w, rc, s, Padded(data, rate), rate)
         == Absorb(w, rc, Absorbed(w, rc, s, data[..rate]), Padded(data[rate..], rate), rate)
  {
    PaddedSplits(data, rate);
  }

  lemma AbsorbLast<W>(w: Words<W>, rc: seq<W>, s: seq<W>, data: seq<bv8>, rate: nat)
    requires |s| == 25 && 0 < rate == |data|
    ensures Absorb(w, rc, s, data, rate) == Absorbed(w, rc, s, data)
  {
    assert data[..rate] == data && data[rate..] == [];
  }

  method AbsorbAndPermute<W>(st: array<W>, w: Words<W>, rndc: seq<W>, block: seq<bv8>)
    requires st.Length == 25 && |block| / 8 <= 25
    modifies st
    ensures st[..] == Absorbed(w, rndc, old(st[..]), block)
  {
    AbsorbInPlace(st, w, block);
    Keccakf(st, w.lanes, rndc, |rndc|);
  }

  // The loop over the blocks that are in the message whole.
  method AbsorbWhole<W>(st: array<W>, w: Words<W>, rndc: seq<W>, data: seq<bv8>, rsiz: nat) returns (rest: seq<bv8>)
    requires st.Length == 25 && 0 < rsiz < 208
    modifies st
    ensures |rest| < rsiz
    ensures Absorb(w, rndc, st[..], Padded(rest, rsiz), rsiz)
         == Absorb(w, rndc, old(st[..]), Padded(data, rsiz), rsiz)
  {
    rest := data;
    while |rest| >= rsiz
      invariant Absorb(w, rndc, st[..], Padded(rest, rsiz), rsiz)
             == Absorb(w, rndc, old(st[..]), Padded(data, rsiz), rsiz)
    {
      AbsorbFirst(w, rndc, st[..], rest, rsiz);
      AbsorbAndPermute(st, w, rndc, rest[..rsiz]);
      rest := rest[rsiz..];
    }
  }

  // For the output lengths whose last block fits temp, the sponge on the padded message.
  method Keccak<W(!new)>(data: seq<bv8>, mdlen: nat, w: Words<W>, rndc: seq<W>) returns (md: seq<bv8>)
    requires mdlen == 200 || 28 <= mdlen < 100
    requires StoresEight(w)
    ensures md == Squeezed(w, rndc, data, Rate(mdlen))[..mdlen]
  {
    var rsiz: nat := if mdlen == 200 then 136 else 200 - 2 * mdlen;
    var st := new W[25](_ => w.zero);
    var temp := new bv8[144];
    assert st[..] == ZeroState(w);
    var rest := AbsorbWhole(st, w, rndc, data, rsiz);
    PadInPlace(temp, rest, rsiz);
    SmallModulo(|rest|, rsiz);
    AbsorbLast(w, rndc, st[..], Padded(rest, rsiz), rsiz);
    AbsorbAndPermute(st, w, rndc, temp[..rsiz]);
    md := BytesOf(w, st[..])[..mdlen];
  }

  // ---- the first kernel of cn-gpu.cpp ----

  ghost predicate ZeroIsNeutral<W(!new)>(w: Words<W>) {
    && (forall x: W :: w.lanes.xor(w.zero, x) == x)
    && w.load(Zeros(8)) == w.zero
  }

  function Zeros(n: nat): (r: seq<bv8>)
    ensures |r| == n && forall i :: 0 <= i < n ==> r[i] == 0x00
  {
    seq(n, _ => 0x00)
  }

  // The padded block byte by byte, the capacity included.
  lemma PaddedAt(input: seq<bv8>, i: nat)
    requires |input| < 136 && i < 200
    ensures |Padded(input, 136)| == 136
    ensures (Padded(input, 136) + Zeros(64))[i] ==
      if i < |input| then input[i]
      else if i == |input| then (if i == 135 then 0x81 else 0x01)
      else if i == 135 then 0x80 else 0x00
  {
  }

  // The whole state as bytes: the padded message and an untouched capacity, exactly when the
  // message leaves room for the padding in the block of 136 bytes.
  method PadInState(spad: array<bv8>, input: seq<bv8>)
    requires spad.Length == 200 && |input| < 200
    modifies spad
    ensures |input| < 136 ==> spad[..] == Padded(input, 136) + Zeros(64)
    ensures spad[136..] == Zeros(64) <==> |input| < 136
  {
    forall i | 0 <= i < |input| {
      spad[i] := input[i];
    }
    spad[|input|] := 0x01;
    forall i | |input| + 1 <= i < 200 {
      spad[i] := 0x00;
    }
    spad[135] := spad[135] | 0x80;
    if |input| < 136 {
      forall i | 0 <= i < 200
        ensures spad[i] == (Padded(input, 136) + Zeros(64))[i]
      {
        PaddedAt(input, i);
      }
      assert spad[..] == Padded(input, 136) + Zeros(64);
    } else {
      assert spad[136..][|input| - 136] == 0x01;
    }
  }

  // Eight bytes at a time.
  function LanesOf<W>(w: Words<W>, bytes: seq<bv8>): (s: seq<W>)
    requires |bytes| == 200
    ensures |s| == 25
  {
    seq(25, i requires 0 <= i < 25 => w.load(bytes[8 * i..8 * i + 8]))
  }

  lemma OneBlockInState<W(!new)>(w: Words<W>, block: seq<bv8>)
    requires |block| == 136 && ZeroIsNeutral(w)
    ensures LanesOf(w, block + Zeros(64)) == AbsorbBlock(w, ZeroState(w), block)
  {
    forall i | 0 <= i < 25
      ensures LanesOf(w, block + Zeros(64))[i] == AbsorbBlock(w, ZeroState(w), block)[i]
    {
      if i < 17 {
        assert (block + Zeros(64))[8 * i..8 * i + 8] == block[8 * i..8 * i + 8];
      } else {
        assert (block + Zeros(64))[8 * i..8 * i + 8] == Zeros(8);
      }
    }
  }

  // The state the kernel stores is the one the sponge squeezes.
  method AbsorbInKernel<W(!new)>(input: seq<bv8>, w: Words<W>, rndc: seq<W>) returns (state: seq<W>)
    requires |input| < 200 && ZeroIsNeutral(w) && SelectIsChi(w.lanes)
    ensures |input| < 136 ==> state == Absorb(w, rndc, ZeroState(w), Padded(input, 136), 136)
  {
    var spad := new bv8[200];
    PadInState(spad, input);
    var lanes := LanesOf(w, spad[..]);
    var s := new W[25](i requires 0 <= i < 25 => lanes[i]);
    assert s[..] == lanes;
    KeccakLoop(s, w.lanes, rndc);
    if |input| < 136 {
      OneBlockInState(w, Padded(input, 136));
      AbsorbLast(w, rndc, ZeroState(w), Padded(input, 136), 136);
    }
    state := s[..];
  }
}
