// fast_mod of ethash_internal.c and the constants KPCache.cpp computes for it: the
// remainder of a 32-bit division by one multiplication and a shift.

module FastMod {
  import opened Numbers
  import opened Words

  // The operations of the source, with its word sizes: a, d, r, i and s are 64-bit, the
  // quotient and the result are cut to 32 bits.
  function FastMod(a: nat, d: nat, r: nat, i: nat, s: nat): uint32 {
    PowPositive(2, s);
    var q := (Product64(a + i, r) / Pow(2, s)) % TWO32;
    ((a - q * d) % TWO64) % TWO32
  }

  function Product64(x: nat, y: nat): nat {
    (x * y) % TWO64
  }

  // r / 2^s is 1 / d up to an error that operands below the limit do not feel: from above with
  // no increment, from below with an increment of one. Nothing overflows.
  predicate GoodReciprocal(d: nat, r: nat, i: nat, s: nat, limit: nat) {
    && 0 < d < TWO32 && limit * r < TWO64 && (limit <= TWO32 || (d > 1 && limit <= 2 * TWO32))
    && ((i == 0 && Pow(2, s) <= r * d && (r * d - Pow(2, s)) * limit <= Pow(2, s))
        || (i == 1 && r * d < Pow(2, s) && (Pow(2, s) - r * d) * limit <= Pow(2, s)))
  }

  lemma Associate(x: int, y: int, z: int)
    ensures (x * y) * z == x * (y * z)
  {
  }

  lemma Cancel(x: int, y: int, d: int)
    requires d > 0
    ensures x * d <= y * d ==> x <= y
    ensures x * d < y * d ==> x < y
  {
    if x > y {
      MulMonotone(y + 1, x, d);
      Distribute(d, y, 1);
    } else if x == y {
      assert x * d == y * d;
    }
  }

  // a * r * d, for a = d * q + m and r * d = n + e.
  lemma ScaledProduct(q: int, m: int, d: int, r: int, n: int, e: int)
    requires r * d == n + e
    ensures ((d * q + m) * r) * d == (q * n) * d + m * n + (d * q + m) * e
    ensures ((q + 1) * n) * d == (q * n) * d + d * n
  {
    var a := d * q + m;
    Associate(a, r, d);
    Distribute(a, n, e);
    Distribute(n, d * q, m);
    assert (d * q) * n == (q * n) * d;
    Distribute(n, q, 1);
    Distribute(d, q * n, n);
  }

  // The shifted product is the quotient of a = d * q + m.
  lemma RoundUp(q: nat, m: nat, d: nat, r: nat, n: nat, e: nat, limit: nat)
    requires m < d && r * d == n + e && n > 0 && d * q + m < limit && e * limit <= n
    ensures q * n <= (d * q + m) * r < (q + 1) * n
  {
    var a := d * q + m;
    ScaledProduct(q, m, d, r, n, e);
    MulMonotone(a, limit - 1, e);
    Distribute(e, limit - 1, 1);
    MulMonotone(0, a, e);
    assert 0 <= a * e < n by { if e == 0 { assert a * e == 0; } }
    MulMonotone(m + 1, d, n);
    Distribute(n, m, 1);
    MulMonotone(0, m, n);
    Cancel(q * n, a * r, d);
    Cancel(a * r, (q + 1) * n, d);
  }

  lemma RoundDown(q: nat, m: nat, d: nat, r: nat, n: nat, e: nat, limit: nat)
    requires m < d && r * d + e == n && e > 0 && d * q + m < limit && e * limit <= n
    ensures q * n <= (d * q + m + 1) * r < (q + 1) * n
  {
    var a := d * q + (m + 1);
    var error: int := e;
    ScaledProduct(q, m + 1, d, r, n, -error);
    MulMonotone(a, limit, e);
    MulMonotone(1, a, e);
    assert a * -error == -(a * error);
    MulMonotone(m + 1, d, n);
    MulMonotone(1, m + 1, n);
    Cancel(q * n, a * r, d);
    Cancel(a * r, (q + 1) * n, d);
  }

  lemma QuotientOf(x: nat, n: nat, q: nat)
    requires n > 0 && q * n <= x < (q + 1) * n
    ensures x / n == q
  {
    var k := x / n;
    assert x == n * k + x % n;
    Distribute(n, k, 1);
    Distribute(n, q, 1);
    assert k * n <= x < (k + 1) * n;
    Cancel(k, q + 1, n);
    Cancel(q, k + 1, n);
  }

  lemma QuotientNotAbove(a: nat, d: nat)
    requires d > 0
    ensures 0 <= a / d <= a && a == d * (a / d) + a % d
  {
    MulMonotone(1, d, a / d);
  }

  // With a good reciprocal fast_mod is the remainder, for every operand below the limit, and
  // the product does not overflow 64 bits.
  lemma FastModIsMod(a: nat, d: nat, r: nat, i: nat, s: nat, limit: nat)
    requires a < limit && GoodReciprocal(d, r, i, s, limit)
    ensures FastMod(a, d, r, i, s) == a % d
    ensures (a + i) * r < TWO64
  {
    PowPositive(2, s);
    var n, q := Pow(2, s), a / d;
    QuotientNotAbove(a, d);
    assert q * n <= (a + i) * r < (q + 1) * n by {
      if i == 0 {
        RoundUp(q, a % d, d, r, n, r * d - n, limit);
      } else {
        RoundDown(q, a % d, d, r, n, n - r * d, limit);
      }
    }
    MulMonotone(a + i, limit, r);
    QuotientFits(a, d, limit);
    ShiftedQuotient(a, d, r, i, s, q);
  }

  lemma QuotientFits(a: nat, d: nat, limit: nat)
    requires a < limit && 0 < d && (limit <= TWO32 || (d > 1 && limit <= 2 * TWO32))
    ensures a / d < TWO32
  {
    QuotientNotAbove(a, d);
    if d > 1 {
      MulMonotone(2, d, a / d);
    }
  }

  lemma ShiftedQuotient(a: nat, d: nat, r: nat, i: nat, s: nat, q: nat)
    requires 0 < d < TWO32 && i <= 1 && q == a / d < TWO32 && 0 <= (a + i) * r < TWO64 && Pow(2, s) > 0
    requires q * Pow(2, s) <= (a + i) * r < (q + 1) * Pow(2, s)
    ensures FastMod(a, d, r, i, s) == a % d
  {
    QuotientOf((a + i) * r, Pow(2, s), q);
    QuotientNotAbove(a, d);
    SmallModulo((a + i) * r, TWO64);
    assert Product64(a + i, r) == (a + i) * r;
    SmallModulo(q, TWO32);
    SmallModulo(a % d, TWO64);
    SmallModulo(a % d, TWO32);
    assert q * d == d * q;
  }

  // ---- the constants ----

  // Bitwise and.
  function BitAnd(x: nat, y: nat): nat {
    if x == 0 || y == 0 then 0 else 2 * BitAnd(x / 2, y / 2) + (x % 2) * (y % 2)
  }

  // The position of the top bit, 31 - clz.
  function TopBit(d: nat): (l: nat)
    requires d > 0
  {
    if d == 1 then 0 else 1 + TopBit(d / 2)
  }

  lemma {:induction false} TopBitBounds(d: nat)
    requires d > 0
    ensures Pow(2, TopBit(d)) <= d < 2 * Pow(2, TopBit(d))
  {
    if d > 1 {
      TopBitBounds(d / 2);
    }
  }

  lemma {:induction false} AndWithItself(x: nat)
    ensures BitAnd(x, x) == x
  {
    if x > 0 {
      AndWithItself(x / 2);
      BitSquared(x % 2);
    }
  }

  lemma BitSquared(b: nat)
    requires b < 2
    ensures b * b == b
  {
  }

  // d & (d - 1) is zero exactly for powers of two.
  lemma {:induction false} ClearsLowestBit(d: nat)
    requires d > 0
    ensures BitAnd(d, d - 1) == 0 <==> d == Pow(2, TopBit(d))
  {
    if d > 1 {
      if d % 2 == 0 {
        assert (d - 1) / 2 == d / 2 - 1;
        ClearsLowestBit(d / 2);
      } else {
        assert (d - 1) / 2 == d / 2;
        AndWithItself(d / 2);
      }
    }
  }

  // A little more than the 32-bit numbers: with four items at once the source divides up to
  // 2^32 + 2.
  const BEYOND: nat := TWO32 + 4

  // Divisors for which the constants reach that far.
  const SMALL: nat := 0x2000_0000

  // calculate_fast_mod_data: for every 32-bit divisor other than zero the three constants
  // make fast_mod the remainder, and for divisors up to 2^29 somewhat beyond 32 bits.
  method CalculateFastModData(divisor: uint32) returns (reciprocal: uint32, increment: uint32, shift: nat)
    requires divisor > 0
    ensures GoodReciprocal(divisor, reciprocal, increment, shift, TWO32)
    ensures forall a: nat :: a < TWO32 ==> FastMod(a, divisor, reciprocal, increment, shift) == a % divisor
    ensures divisor <= SMALL ==>
      forall a: nat :: a < BEYOND ==> FastMod(a, divisor, reciprocal, increment, shift) == a % divisor
  {
    var l := TopBit(divisor);
    ClearsLowestBit(divisor);
    PowPositive(2, l);
    if BitAnd(divisor, divisor - 1) == 0 {
      reciprocal, increment, shift := 1, 0, l;
      PowerIsGood(divisor, TWO32);
      FastModOfPower(divisor);
    } else {
      shift := 32 + l;
      var n := Pow(2, shift);
      var q := n / divisor;
      var r := n - q * divisor;
      TopBitBounds(divisor);
      RoundingIsGood(divisor, l, TWO32);
      if divisor <= SMALL {
        RoundingIsGood(divisor, l, BEYOND);
      }
      if r * 2 < divisor {
        reciprocal, increment := q, 1;
      } else {
        reciprocal, increment := q + 1, 0;
      }
    }
    FastModIsModForAll(divisor, reciprocal, increment, shift, TWO32);
    if divisor <= SMALL && BitAnd(divisor, divisor - 1) != 0 {
      FastModIsModForAll(divisor, reciprocal, increment, shift, BEYOND);
    }
  }

  lemma PowerIsGood(d: nat, limit: nat)
    requires 0 < d < TWO32 && d == Pow(2, TopBit(d)) && (limit == TWO32 || (limit == BEYOND && d > 1))
    ensures GoodReciprocal(d, 1, 0, TopBit(d), limit)
  {
  }

  lemma FastModOfPower(d: nat)
    requires 0 < d < TWO32 && d == Pow(2, TopBit(d))
    ensures forall a: nat :: a < BEYOND ==> FastMod(a, d, 1, 0, TopBit(d)) == a % d
  {
    if d == 1 {
      FastModOfOne();
    } else {
      PowerIsGood(d, BEYOND);
      FastModIsModForAll(d, 1, 0, TopBit(d), BEYOND);
    }
  }

  // The reciprocal rounded to the nearer side.
  lemma RoundingIsGood(d: nat, l: nat, limit: nat)
    requires 1 < d < TWO32 && l == TopBit(d) && d != Pow(2, l) && 0 < Pow(2, l) < d < 2 * Pow(2, l)
    requires limit == TWO32 || (limit == BEYOND && d <= SMALL)
    ensures var n := Pow(2, 32 + l);
      var q, r := n / d, n - n / d * d;
      && 0 <= q && q + 1 < TWO32
      && (r * 2 < d ==> GoodReciprocal(d, q, 1, 32 + l, limit))
      && (r * 2 >= d ==> GoodReciprocal(d, q + 1, 0, 32 + l, limit))
  {
    var n := Pow(2, 32 + l);
    PowAdd(2, 32, l);
    TwoTo32();
    NotExact(d, 32 + l);
    RoundingFits(d, Pow(2, l), n, limit);
    var q, r := n / d, n - n / d * d;
    if r * 2 < d {
      BelowIsGood(d, q, 32 + l, r, limit);
    } else {
      AboveIsGood(d, q + 1, 32 + l, d - r, limit);
    }
  }

  lemma BelowIsGood(d: nat, r: nat, s: nat, e: nat, limit: nat)
    requires 1 < d < TWO32 && limit <= 2 * TWO32 && limit * r < TWO64 && e > 0
    requires r * d == Pow(2, s) - e && e * limit <= Pow(2, s)
    ensures GoodReciprocal(d, r, 1, s, limit)
  {
    assert Pow(2, s) - r * d == e;
  }

  lemma AboveIsGood(d: nat, r: nat, s: nat, e: nat, limit: nat)
    requires 1 < d < TWO32 && limit <= 2 * TWO32 && limit * r < TWO64
    requires r * d == Pow(2, s) + e && e * limit <= Pow(2, s)
    ensures GoodReciprocal(d, r, 0, s, limit)
  {
    assert r * d - Pow(2, s) == e;
  }

  // The constants fit their words and the error is small enough for the limit.
  lemma RoundingFits(d: nat, p: nat, n: nat, limit: nat)
    requires 0 < p < d < 2 * p && d < TWO32 && n == TWO32 * p && n % d != 0
    requires limit == TWO32 || (limit == BEYOND && d <= SMALL)
    ensures var q, r := n / d, n - n / d * d;
      && 0 <= q && q + 1 < TWO32 && limit * q <= limit * (q + 1) < TWO64 && 0 < r < d
      && (r * 2 < d ==> q * d == n - r && r * limit <= n)
      && (r * 2 >= d ==> (q + 1) * d == n + (d - r) && (d - r) * limit <= n)
  {
    ReciprocalFits(d, p, n);
    var q := n / d;
    MulMonotone(q, q + 1, limit);
    if limit == TWO32 {
      MulMonotone(q + 1, TWO32 - 1, TWO32);
    } else {
      ReciprocalReaches(d, p, n);
    }
  }

  lemma FastModIsModForAll(d: nat, r: nat, i: nat, s: nat, limit: nat)
    requires GoodReciprocal(d, r, i, s, limit)
    ensures forall a: nat :: a < limit ==> FastMod(a, d, r, i, s) == a % d
  {
    forall a: nat | a < limit
      ensures FastMod(a, d, r, i, s) == a % d
    {
      FastModIsMod(a, d, r, i, s, limit);
    }
  }

  // Even where the quotient does not fit 32 bits.
  lemma FastModOfOne()
    ensures forall a: nat :: a < BEYOND ==> FastMod(a, 1, 1, 0, 0) == a % 1
  {
    forall a: nat | a < BEYOND
      ensures FastMod(a, 1, 1, 0, 0) == a % 1
    {
      assert Pow(2, 0) == 1;
      SmallModulo(a, TWO64);
      if a < TWO32 {
        SmallModulo(a, TWO32);
      } else {
        DivisionIs(a, TWO32, 1, a - TWO32);
      }
    }
  }

  lemma NotExact(d: nat, s: nat)
    requires d > 0 && d != Pow(2, TopBit(d))
    ensures Pow(2, s) % d != 0
  {
    var n := Pow(2, s);
    QuotientNotAbove(n, d);
    if n % d == 0 {
      DividesPower(d, n / d, s);
    }
  }

  // For d between p and 2p, not a power of two: 2^32 * p / d has room for one more below
  // 2^32, and rounding to the nearer side leaves an error below p.
  lemma ReciprocalFits(d: nat, p: nat, n: nat)
    requires 0 < p < d < 2 * p && d < TWO32 && n == TWO32 * p && n % d != 0
    ensures var q, r := n / d, n - n / d * d;
      && 0 <= q && q + 1 < TWO32 && 0 < r < d
      && (r * 2 < d ==> q * d == n - r && r * TWO32 <= n)
      && (r * 2 >= d ==> (q + 1) * d == n + (d - r) && (d - r) * TWO32 <= n)
  {
    var q := n / d;
    var r := n % d;
    assert n == d * q + r;
    Distribute(d, q, 1);
    MulMonotone(p + 1, d, TWO32 - 1);
    Distribute(TWO32 - 1, p, 1);
    Cancel(q + 1, TWO32, d);
  }

  // The same with room for operands beyond 32 bits, for small divisors.
  lemma ReciprocalReaches(d: nat, p: nat, n: nat)
    requires 0 < p < d < 2 * p && d <= SMALL && n == TWO32 * p && n % d != 0
    ensures var q, r := n / d, n - n / d * d;
      && 0 <= q && BEYOND * (q + 1) < TWO64 && 0 < r < d
      && (r * 2 < d ==> q * d == n - r && r * BEYOND <= n)
      && (r * 2 >= d ==> (q + 1) * d == n + (d - r) && (d - r) * BEYOND <= n)
  {
    ReciprocalFits(d, p, n);
    var q := n / d;
    assert q * d <= (TWO32 - 8) * d;
    Cancel(q, TWO32 - 8, d);
  }

  // Only powers of two divide a power of two.
  lemma {:induction false} DividesPower(d: nat, q: nat, s: nat)
    requires d > 0 && d * q == Pow(2, s)
    ensures d == Pow(2, TopBit(d))
    decreases s
  {
    if d > 1 {
      PowPositive(2, s);
      assert s > 0 by {
        if s == 0 { MulMonotone(2, d, q); }
      }
      var half := Pow(2, s - 1);
      if d % 2 == 0 {
        assert d * q == 2 * ((d / 2) * q) by { Associate(2, d / 2, q); }
        DividesPower(d / 2, q, s - 1);
      } else {
        OddFactor(d, q, half);
        DividesPower(d, q / 2, s - 1);
      }
    }
  }

  lemma OddFactor(d: nat, q: nat, half: nat)
    requires d % 2 == 1 && d * q == 2 * half
    ensures d * (q / 2) == half
  {
    var c, k := d / 2, q / 2;
    assert d == 2 * c + 1;
    Distribute(q, 2 * c, 1);
    Associate(2, c, q);
    assert q == 2 * (half - c * q);
    assert q == 2 * k;
    assert d * q == 2 * (d * k) by { assert d * (2 * k) == 2 * (d * k); }
  }
}
