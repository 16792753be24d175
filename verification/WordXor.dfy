// Exclusive or of words as numbers, bit by bit.

module WordXor {
  import opened Numbers
  import opened Words

  function Xor(a: nat, b: nat): nat
    decreases a + b
  {
    if a == 0 && b == 0 then 0 else 2 * Xor(a / 2, b / 2) + (a + b) % 2
  }

  function Xor32(x: uint32, y: uint32): uint32 {
    TwoTo32();
    XorBelow(x, y, 32);
    Xor(x, y)
  }

  lemma {:induction false} XorBelow(a: nat, b: nat, k: nat)
    requires a < Pow(2, k) && b < Pow(2, k)
    ensures Xor(a, b) < Pow(2, k)
    decreases k
  {
    if k > 0 {
      XorBelow(a / 2, b / 2, k - 1);
    }
  }

  lemma XorParts(a: nat, b: nat)
    ensures Xor(a, b) / 2 == Xor(a / 2, b / 2) && Xor(a, b) % 2 == (a + b) % 2
  {
  }

  // Bit k of a number.
  function BitOf(a: nat, k: nat): nat {
    if k == 0 then a % 2 else BitOf(a / 2, k - 1)
  }

  // Every bit of the result is the sum of the two bits, without carry.
  lemma {:induction false} XorBit(a: nat, b: nat, k: nat)
    ensures BitOf(Xor(a, b), k) == (BitOf(a, k) + BitOf(b, k)) % 2
    decreases k
  {
    XorParts(a, b);
    if k == 0 {
      Parity(a, b);
    } else {
      XorBit(a / 2, b / 2, k - 1);
      NextBit(a, k);
      NextBit(b, k);
      NextBit(Xor(a, b), k);
    }
  }

  lemma Parity(a: nat, b: nat)
    ensures (a + b) % 2 == (a % 2 + b % 2) % 2
  {
  }

  lemma NextBit(a: nat, k: nat)
    requires k > 0
    ensures BitOf(a, k) == BitOf(a / 2, k - 1)
  {
  }

  lemma {:induction false} XorTwice(a: nat, b: nat)
    ensures Xor(Xor(a, b), b) == a
    decreases a + b
  {
    if a != 0 || b != 0 {
      var c := Xor(a, b);
      XorTwice(a / 2, b / 2);
      XorParts(a, b);
      XorParts(c, b);
      SameParity(a, b);
      SameHalves(Xor(c, b), a);
    }
  }

  lemma SameHalves(x: nat, y: nat)
    requires x / 2 == y / 2 && x % 2 == y % 2
    ensures x == y
  {
  }

  lemma SameParity(a: nat, b: nat)
    ensures ((a + b) % 2 + b) % 2 == a % 2
    ensures forall c :: c % 2 == (a + b) % 2 ==> (c + b) % 2 == a % 2
  {
  }

  lemma {:induction false} XorZero(a: nat)
    ensures Xor(a, 0) == a
  {
    if a != 0 {
      XorZero(a / 2);
    }
  }

  lemma {:induction false} XorSwaps(a: nat, b: nat)
    ensures Xor(a, b) == Xor(b, a)
    decreases a + b
  {
    if a != 0 || b != 0 {
      XorSwaps(a / 2, b / 2);
    }
  }
}
