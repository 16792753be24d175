// Powers, and numbers written as sequences of 32-bit digits, least significant first.

module Numbers {

  import opened Words

  type bigit = uint32      // a digit to the base TWO32

  function Pow(b: nat, e: nat): nat
    decreases e, b
  {
    if e == 0 then 1 else b * Pow(b, e - 1)
  }

  lemma MulAssociates(x: int, y: int, z: int)
    ensures x * (y * z) == (x * y) * z
  {
  }

  lemma MulSwap(a: int, b: int, x: int, y: int)
    ensures (a * b) * (x * y) == (a * x) * (b * y)
  {
    MulAssociates(a * b, x, y);
    MulAssociates(a, b, x);
    MulAssociates(a, x, b);
    MulAssociates(a * x, b, y);
  }

  // A factor of two or more leaves the other below the product.
  lemma FactorIsBelow(p: nat, q: nat, n: nat)
    requires p > 0 && q >= 2 && p * q == n
    ensures p < n
  {
    MulAtLeast(p, q - 1);
    Distribute(p, q - 1, 1);
  }

  lemma {:induction false} PowPositive(b: nat, e: nat)
    requires b > 0
    ensures Pow(b, e) > 0
    decreases e
  {
    if e > 0 {
      PowPositive(b, e - 1);
    }
  }

  lemma {:induction false} PowAdd(b: nat, m: nat, n: nat)
    ensures Pow(b, m + n) == Pow(b, m) * Pow(b, n)
    decreases m
  {
    if m > 0 {
      PowAdd(b, m - 1, n);
      MulAssociates(b, Pow(b, m - 1), Pow(b, n));
    }
  }

  lemma {:induction false} PowMonotone(b: nat, m: nat, n: nat)
    requires b > 0 && m <= n
    ensures Pow(b, m) <= Pow(b, n)
    decreases n
  {
    if m < n {
      PowMonotone(b, m, n - 1);
      MulAtLeast(Pow(b, n - 1), b);
    }
  }

  lemma {:induction false} PowOfProduct(a: nat, b: nat, e: nat)
    ensures Pow(a * b, e) == Pow(a, e) * Pow(b, e)
    decreases e
  {
    if e > 0 {
      PowOfProduct(a, b, e - 1);
      MulSwap(a, b, Pow(a, e - 1), Pow(b, e - 1));
    }
  }

  lemma {:induction false} PowOfPow(b: nat, m: nat, n: nat)
    ensures Pow(Pow(b, m), n) == Pow(b, m * n)
    decreases n
  {
    if n > 0 {
      PowOfPow(b, m, n - 1);
      PowAdd(b, m, m * (n - 1));
      assert m + m * (n - 1) == m * n;
    } else {
      assert m * n == 0;
    }
  }

  lemma TwoTo32()
    ensures Pow(2, 32) == TWO32
  {
    PowAdd(2, 16, 16);
    PowAdd(2, 8, 8);
    assert Pow(2, 8) == 256;
  }

  // ---- digit sequences ----

  function Eval(s: seq<bigit>): nat
  {
    if |s| == 0 then 0 else s[0] + TWO32 * Eval(s[1..])
  }

  lemma {:induction false} EvalConcat(s: seq<bigit>, t: seq<bigit>)
    ensures Eval(s + t) == Eval(s) + Pow(TWO32, |s|) * Eval(t)
  {
    if |s| == 0 {
      assert s + t == t;
    } else {
      EvalConcat(s[1..], t);
      assert (s + t)[1..] == s[1..] + t;
      MulAssociates(TWO32, Pow(TWO32, |s| - 1), Eval(t));
    }
  }

  lemma {:induction false} EvalAppend(s: seq<bigit>, d: bigit)
    ensures Eval(s + [d]) == Eval(s) + Pow(TWO32, |s|) * d
  {
    EvalConcat(s, [d]);
    assert Eval([d]) == d;
  }

  // The digits up to i, one more digit, and the rest.
  lemma EvalTake(s: seq<bigit>, i: nat)
    requires i < |s|
    ensures Eval(s[..i + 1]) == Eval(s[..i]) + Pow(TWO32, i) * s[i]
  {
    assert s[..i + 1] == s[..i] + [s[i]];
    EvalAppend(s[..i], s[i]);
  }

  lemma EvalSplit(s: seq<bigit>, i: nat)
    requires i <= |s|
    ensures Eval(s) == Eval(s[..i]) + Pow(TWO32, i) * Eval(s[i..])
  {
    assert s == s[..i] + s[i..];
    EvalConcat(s[..i], s[i..]);
  }

  lemma {:induction false} EvalBelow(s: seq<bigit>)
    ensures Eval(s) < Pow(TWO32, |s|)
  {
    if |s| > 0 {
      EvalBelow(s[1..]);
      assert Eval(s[1..]) + 1 <= Pow(TWO32, |s| - 1);
      assert TWO32 * (Eval(s[1..]) + 1) <= TWO32 * Pow(TWO32, |s| - 1);
    }
  }

  lemma MulAtLeast(p: nat, d: nat)
    requires d >= 1
    ensures p * d >= p
  {
  }

  lemma EvalAtLeast(s: seq<bigit>)
    requires |s| > 0 && s[|s| - 1] != 0
    ensures Eval(s) >= Pow(TWO32, |s| - 1)
  {
    var n := |s| - 1;
    EvalTake(s, n);
    assert s[..n + 1] == s;
    MulAtLeast(Pow(TWO32, n), s[n]);
  }

  function Zeros(n: nat): (s: seq<bigit>)
    ensures |s| == n && forall i :: 0 <= i < n ==> s[i] == 0
  {
    seq(n, i => 0)
  }

  lemma {:induction false} EvalZeros(n: nat)
    ensures Eval(Zeros(n)) == 0
  {
    if n > 0 {
      assert Zeros(n)[1..] == Zeros(n - 1);
      EvalZeros(n - 1);
    }
  }

  // ---- products ----

  lemma MulMonotone(x: int, y: int, z: int)
    requires x <= y && z >= 0
    ensures x * z <= y * z && z * x <= z * y
  {
  }

  lemma Distribute(x: int, y: int, z: int)
    ensures x * (y + z) == x * y + x * z
    ensures (y + z) * x == y * x + z * x
  {
  }

  // ---- Euclidean division ----

  lemma SmallModulo(a: int, x: int)
    requires 0 <= a < x
    ensures a % x == a
  {
  }

  lemma OnlyZeroBetween(x: int, d: int)
    requires x > 0 && -x < x * d < x
    ensures d == 0
  {
  }

  lemma DivisionIs(a: int, x: int, q: int, c: int)
    requires 0 <= c < x && a == q * x + c
    ensures a / x == q && a % x == c
  {
    var q', c' := a / x, a % x;
    assert a == x * q' + c';
    assert x * (q' - q) == x * q' - x * q;
    OnlyZeroBetween(x, q' - q);
  }
}
