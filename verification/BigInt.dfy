// class bigint of fmt's format-inl.h: multi-precision numbers updated in place.

module BigInt {
  import opened Numbers
  import opened BigValue
  import opened BigArithmetic
  import opened Words

  // The sum of terms in bigint::square when there is no 128-bit integer.
  class Accumulator {
    var lower: uint64
    var upper: uint64

    ghost function Total(): nat
      reads this
    {
      lower + TWO64 * upper
    }

    constructor ()
      ensures Total() == 0
    {
      lower, upper := 0, 0;
    }

    // operator+=: as on a 128-bit unsigned integer.
    method Add(n: uint64)
      modifies this
      ensures Total() == (old(Total()) + n) % (TWO64 * TWO64)
    {
      lower := (lower + n) % TWO64;
      if lower < n { upper := (upper + 1) % TWO64; }
    }

    // sum += (double_bigit)x * y, while the total stays below 2^128.
    method AddProduct(x: bigit, y: bigit)
      requires Total() + x * y < TWO64 * TWO64
      modifies this
      ensures Total() == old(Total()) + x * y
    {
      ProductFits(x, y, 0, 0);
      var a: int, b: int := x, y;
      Add(a * b);
    }

    // operator>>= with shift 32.
    method ShiftRight32()
      modifies this
      ensures Total() == old(Total()) / TWO32
    {
      lower := (upper * TWO32) % TWO64 + lower / TWO32;
      upper := upper / TWO32;
    }

    method Bigit() returns (d: bigit)
      ensures d == Total() % TWO32
    {
      d := lower % TWO32;
    }
  }

  class Bigint {
    var bigits: seq<bigit>
    var exp: nat

    ghost function Model(): Big
      reads this
    {
      Big(bigits, exp)
    }

    constructor ()
      ensures Model() == Big([], 0)
    {
      bigits, exp := [], 0;
    }

    method Assign(n: uint64)
      modifies this
      ensures exp == 0 && Eval(bigits) == n && |bigits| > 0
      ensures n > 0 ==> Normal(Model())
    {
      var rest := n;
      bigits := [];
      while true
        invariant 0 <= rest < TWO64 && Eval(bigits) + rest * Pow(TWO32, |bigits|) == n
        invariant |bigits| > 0 ==> rest > 0
        decreases rest
      {
        EvalAppend(bigits, rest % TWO32);
        PowPositive(TWO32, |bigits|);
        MoveDigit(rest / TWO32, rest % TWO32, Pow(TWO32, |bigits|), 0);
        bigits := bigits + [rest % TWO32];
        rest := rest / TWO32;
        if rest == 0 { break; }
      }
      exp := 0;
    }

    method RemoveLeadingZeros()
      modifies this
      ensures exp == old(exp) && Eval(bigits) == old(Eval(bigits))
      ensures |bigits| <= |old(bigits)| && bigits == old(bigits)[..|bigits|]
      ensures old(bigits) != [] ==> Normal(Model()) || IsZero(Model())
    {
      var numBigits := |bigits| - 1;
      assert bigits[..numBigits + 1] == bigits;
      while numBigits > 0 && bigits[numBigits] == 0
        invariant -1 <= numBigits < |bigits| && (bigits != [] ==> numBigits >= 0)
        invariant bigits == old(bigits) && exp == old(exp)
        invariant Eval(bigits[..numBigits + 1]) == Eval(bigits)
      {
        EvalTake(bigits, numBigits);
        numBigits := numBigits - 1;
      }
      bigits := bigits[..numBigits + 1];
    }

    method Multiply32(value: uint32)
      modifies this
      ensures exp == old(exp) && Eval(bigits) == old(Eval(bigits)) * value
      ensures value > 0 && old(Normal(Model())) ==> Normal(Model())
    {
      ghost var start := bigits;
      var n := |bigits|;
      var carry: bigit := 0;
      var i := 0;
      ScalingStarts(start, value);
      while i < n
        invariant i <= n == |start| && exp == old(exp)
        invariant Scaling(start, bigits, i, value, carry)
      {
        MultiplyStep(start, bigits, i, value, carry);
        var result: uint64 := bigits[i] * value + carry;
        bigits := bigits[i := result % TWO32];
        carry := result / TWO32;
        i := i + 1;
      }
      ScalingEnds(start, bigits, value, carry);
      if carry != 0 { bigits := bigits + [carry]; }
    }

    // value = lower + 2^32 * upper; the carry is a double bigit here.
    method Multiply64(value: uint64)
      modifies this
      ensures exp == old(exp) && Eval(bigits) == old(Eval(bigits)) * value
      ensures value > 0 && old(Normal(Model())) ==> Normal(Model())
    {
      ghost var start := bigits;
      var lower: uint32, upper: uint32 := value % TWO32, value / TWO32;
      var carry: uint64 := 0;
      var i, n := 0, |bigits|;
      ScalingStarts(start, value);
      while i < n
        invariant i <= n == |start| && exp == old(exp)
        invariant Scaling(start, bigits, i, value, carry)
      {
        WideStep(start, bigits, i, lower, upper, carry);
        var result: uint64 := bigits[i] * lower + carry % TWO32;
        var more: uint64 := bigits[i] * upper + result / TWO32 + carry / TWO32;
        bigits := bigits[i := result % TWO32];
        carry := more;
        i := i + 1;
      }
      assert bigits[..n] == bigits && start[..n] == start;
      if carry == 0 { TopStays(start, bigits, value); }
      PushCarry(carry);
    }

    // The closing loop of multiply: the carry becomes one or two more bigits.
    method PushCarry(start: uint64)
      modifies this
      ensures exp == old(exp)
      ensures Eval(bigits) == old(Eval(bigits)) + start * Pow(TWO32, |old(bigits)|)
      ensures if start == 0 then bigits == old(bigits) else |bigits| > 0 && bigits[|bigits| - 1] != 0
    {
      var carry := start;
      while carry != 0
        invariant exp == old(exp) && carry >= 0
        invariant Eval(bigits) + carry * Pow(TWO32, |bigits|) == old(Eval(bigits)) + start * Pow(TWO32, |old(bigits)|)
        invariant start == 0 ==> bigits == old(bigits)
        invariant start > 0 && carry == 0 ==> |bigits| > 0 && bigits[|bigits| - 1] != 0
        decreases carry
      {
        EvalAppend(bigits, carry % TWO32);
        SplitCarry(carry, Pow(TWO32, |bigits|));
        bigits := bigits + [carry % TWO32];
        carry := carry / TWO32;
      }
    }

    method ShiftLeft(shift: nat)
      modifies this
      ensures Value(Model()) == old(Value(Model())) * Pow(2, shift)
      ensures old(Normal(Model())) ==> Normal(Model())
    {
      ShiftValue(Model(), shift);
      ghost var start := bigits;
      exp := exp + shift / 32;
      var s := shift % 32;
      if s == 0 {
        assert Pow(2, 0) == 1;
        return;
      }
      SmallPower(s);
      var carry: bigit := 0;
      var i, n := 0, |bigits|;
      ScalingStarts(start, Pow(2, s));
      while i < n
        invariant i <= n == |start| && exp == old(exp) + shift / 32
        invariant carry < Pow(2, s) && Scaling(start, bigits, i, Pow(2, s), carry)
      {
        ShiftDigit(bigits[i], s, carry);
        var c := bigits[i] / Pow(2, 32 - s);
        var d := (bigits[i] * Pow(2, s)) % TWO32 + carry;
        ScalingStep(start, bigits, i, Pow(2, s), carry, d, c);
        bigits := bigits[i := d];
        carry := c;
        i := i + 1;
      }
      ScalingEnds(start, bigits, Pow(2, s), carry);
      if carry != 0 { bigits := bigits + [carry]; }
    }

    // *this -= other at one bigit; the borrow in and out is 0 or 1.
    method SubtractBigits(index: nat, other: bigit, borrow: bigit) returns (borrow': bigit)
      requires index < |bigits| && borrow <= 1
      modifies this
      ensures exp == old(exp) && borrow' <= 1
      ensures var d := old(bigits[index]) - other - borrow;
        bigits == old(bigits)[index := if d < 0 then d + TWO32 else d] && borrow' == if d < 0 then 1 else 0
    {
      var result: uint64 := (bigits[index] - other - borrow) % TWO64;
      bigits := bigits[index := result % TWO32];
      borrow' := result / (TWO64 / 2);
    }

    // The closing loop of subtract_aligned: it does not advance its index.
    method SettleBorrow(i: nat, start: bigit)
      requires start <= 1 && (start == 1 ==> i < |bigits|)
      modifies this
      ensures exp == old(exp)
      ensures bigits == if start == 0 then old(bigits)
        else old(bigits)[i := if old(bigits[i]) > 0 then old(bigits[i]) - 1 else TWO32 - 2]
    {
      var borrow := start;
      while borrow > 0
        invariant exp == old(exp) && borrow <= 1 && |bigits| == |old(bigits)|
        invariant borrow == 1 ==> start == 1
        invariant start == 0 ==> bigits == old(bigits)
        invariant start == 1 && borrow == 1 ==>
          bigits == old(bigits) || (old(bigits[i]) == 0 && bigits == old(bigits)[i := TWO32 - 1])
        invariant start == 1 && borrow == 0 ==>
          bigits == old(bigits)[i := if old(bigits[i]) > 0 then old(bigits[i]) - 1 else TWO32 - 2]
        decreases borrow, if start == 1 && bigits[i] == 0 then 1 else 0
      {
        borrow := SubtractBigits(i, 0, borrow);
      }
    }

    // The loop over the bigits of `other`.
    method SubtractAll(other: Bigint, off: nat) returns (borrow: bigit)
      requires this != other && off + |other.bigits| <= |bigits|
      modifies this
      ensures exp == old(exp)
      ensures Subtracting(old(bigits), bigits, other.bigits, off, |other.bigits|, borrow)
    {
      ghost var start := bigits;
      borrow := 0;
      var i, j, n := off, 0, |other.bigits|;
      SubtractingStarts(start, other.bigits, off);
      while j != n
        invariant j <= n && i == off + j && exp == old(exp)
        invariant Subtracting(start, bigits, other.bigits, off, j, borrow)
      {
        ghost var now := bigits;
        ghost var was := borrow;
        borrow := SubtractBigits(i, other.bigits[j], borrow);
        SubtractingStep(start, now, other.bigits, off, j, was, bigits[i], borrow);
        i, j := i + 1, j + 1;
      }
    }

    // The result is the difference if and only if the borrow meets a bigit it can be taken
    // from right behind the last bigit of `other`.
    method SubtractAligned(other: Bigint)
      requires this != other && other.exp >= exp && Normal(other.Model())
      requires Value(Model()) >= Value(other.Model())
      modifies this
      ensures exp == old(exp)
      ensures Value(Model()) == old(Value(Model())) - Value(other.Model())
        <==> BorrowStops(old(Model()), other.Model())
      ensures Normal(Model()) || IsZero(Model())
    {
      ghost var start := bigits;
      ghost var before := Model();
      var off := other.exp - exp;
      FitsBelow(before, other.Model());
      var borrow := SubtractAll(other, off);
      var i := off + |other.bigits|;
      ghost var now := bigits;
      SubtractingEnds(start, bigits, other.bigits, off, borrow);
      BorrowHasRoom(before, other.Model(), Eval(bigits), borrow);
      SettleBorrow(i, borrow);
      SettledValue(before, other.Model(), now, bigits, borrow);
      RemoveLeadingZeros();
    }

    // Trailing zero bigits down to the exponent of `other`.
    method Align(other: Bigint)
      requires this != other
      modifies this
      ensures Model() == Aligned(old(Model()), other.exp)
    {
      var diff := exp - other.exp;
      if diff <= 0 { return; }
      var numBigits := |bigits|;
      ghost var start := bigits;
      assert |Zeros(diff)| == diff;
      var resized: seq<bigit> :| |resized| == diff;
      bigits := bigits + resized;
      var i, j := numBigits - 1, numBigits - 1 + diff;
      while i >= 0
        invariant -1 <= i < numBigits && j == i + diff && |bigits| == numBigits + diff && exp == old(exp)
        invariant forall k :: 0 <= k <= i ==> bigits[k] == start[k]
        invariant forall k :: i < k < numBigits ==> bigits[k + diff] == start[k]
      {
        bigits := bigits[j := bigits[i]];
        i, j := i - 1, j - 1;
      }
      bigits := Zeros(diff) + bigits[diff..];
      exp := exp - diff;
    }

    // Divides by the divisor: the quotient is returned, the remainder left in place. The
    // remainder is below the divisor unless the dividend was the same number written with
    // fewer bigits, which the first comparison takes for a smaller one.
    method DivmodAssign(divisor: Bigint) returns (quotient: int)
      requires this != divisor && Normal(divisor.Model())
      requires Normal(Model()) || (IsZero(Model()) && exp <= divisor.exp)
      requires Value(Model()) < 0x8000_0000 * Value(divisor.Model())
      modifies this
      ensures 0 <= quotient < 0x8000_0000
      ensures quotient * Value(divisor.Model()) + Value(Model()) == old(Value(Model()))
      ensures Value(Model()) < Value(divisor.Model())
        <==> !(PaddedTwin(old(Model()), divisor.Model()) && old(exp) > divisor.exp)
    {
      quotient := 0;
      ghost var d := divisor.Model();
      var c := Compare(this, divisor);
      CompareMeans(Model(), d);
      if c < 0 {
        assert 0 * Value(d) == 0;
        return;
      }
      AlignKeepsValue(Model(), divisor.exp);
      Align(divisor);
      quotient := DivideAligned(divisor);
    }

    // The subtraction loop of divmod_assign.
    method DivideAligned(divisor: Bigint) returns (quotient: int)
      requires this != divisor && Normal(divisor.Model()) && Normal(Model()) && exp <= divisor.exp
      requires Value(divisor.Model()) <= Value(Model()) < 0x8000_0000 * Value(divisor.Model())
      modifies this
      ensures 0 <= quotient < 0x8000_0000 && Value(Model()) < Value(divisor.Model())
      ensures quotient * Value(divisor.Model()) + Value(Model()) == old(Value(Model()))
    {
      quotient := 0;
      ghost var d := divisor.Model();
      ghost var total := Value(Model());
      var c := 0;
      while true
        invariant exp <= d.exp && divisor.Model() == d && quotient >= 0
        invariant Normal(Model()) && Value(Model()) >= Value(d)
        invariant quotient * Value(d) + Value(Model()) == total
        decreases Value(Model())
      {
        BorrowStopsInDivision(Model(), d, quotient, total);
        DivisionStep(quotient, Value(d), Value(Model()));
        SubtractAligned(divisor);
        quotient := quotient + 1;
        c := Compare(this, divisor);
        CompareMeans(Model(), d);
        if c < 0 { break; }
      }
      QuotientFits(quotient, Value(d), Value(Model()), total);
    }

    method Square()
      requires |bigits| < 0x4000_0000
      modifies this
      ensures exp == 2 * old(exp) && Eval(bigits) == old(Eval(bigits)) * old(Eval(bigits))
      ensures old(bigits) != [] ==> Normal(Model()) || IsZero(Model())
    {
      var n := bigits;
      var numBigits, numResultBigits := |n|, 2 * |n|;
      assert |Zeros(numResultBigits)| == numResultBigits;
      var resized: seq<bigit> :| |resized| == numResultBigits;
      bigits := resized;
      var sum := new Accumulator();
      var index := 0;
      assert Eval(bigits[..0]) == 0;
      while index < numBigits
        invariant index <= numBigits && fresh(sum) && exp == old(exp)
        invariant Squaring(n, bigits, index, sum.Total())
      {
        ghost var carry := sum.Total();
        ColumnFits(n, bigits, index, carry);
        AddLowColumn(sum, n, index);
        var d := sum.Bigit();
        SquaringStep(n, bigits, index, carry, sum.Total());
        bigits := bigits[index := d];
        sum.ShiftRight32();
        index := index + 1;
      }
      while index < numResultBigits
        invariant numBigits <= index <= numResultBigits && fresh(sum) && exp == old(exp)
        invariant Squaring(n, bigits, index, sum.Total())
      {
        ghost var carry := sum.Total();
        ColumnFits(n, bigits, index, carry);
        AddHighColumn(sum, n, index);
        var d := sum.Bigit();
        SquaringStep(n, bigits, index, carry, sum.Total());
        bigits := bigits[index := d];
        sum.ShiftRight32();
        index := index + 1;
      }
      SquaringEnds(n, bigits, sum.Total());
      RemoveLeadingZeros();
      exp := exp * 2;
    }

    // 10^e as 5^e shifted by e.
    method AssignPow10(e: nat)
      requires e < 0x4000_0000
      modifies this
      ensures Value(Model()) == Pow(10, e) && Normal(Model())
    {
      assert Pow(10, 0) == 1 && Pow(TWO32, 0) == 1;
      if e == 0 {
        Assign(1);
        return;
      }
      AssignPow5(e);
      ShiftLeft(e);
      PowOfProduct(5, 2, e);
    }

    // Repeated squaring along the bits of e, from the one below the top bit on. The int
    // bitmask of the source has room for exponents below 2^30.
    method AssignPow5(e: nat)
      requires 0 < e < 0x4000_0000
      modifies this
      ensures IsPowerOf5(e)
    {
      var bitmask: nat;
      ghost var k: int;
      bitmask, k := FindTopBit(e);
      TopBit(e, bitmask);
      Assign(5);
      ghost var done: nat := 1;
      assert Pow(5, 1) == 5 * Pow(5, 0);
      BitStep(e, bitmask);
      HalvePower(k);
      bitmask, k := bitmask / 2, k - 1;
      while bitmask != 0
        invariant IsPowerOf5(done)
        invariant BitsDone(e, bitmask, k, done)
        decreases bitmask
      {
        NextBit(e, bitmask, k, done);
        SquareStep(done, (e / bitmask) % 2 != 0);
        done := e / bitmask;
        bitmask, k := bitmask / 2, k - 1;
      }
    }

    ghost predicate IsPowerOf5(e: nat)
      reads this
    {
      exp == 0 && Normal(Model()) && Eval(bigits) == Pow(5, e)
    }

    method SquareStep(ghost done: nat, bit: bool)
      requires IsPowerOf5(done) && done < 0x4000_0000 - 1
      modifies this
      ensures IsPowerOf5(2 * done + if bit then 1 else 0)
    {
      FiveFits(bigits, done);
      Square();
      PowAdd(5, done, done);
      FiveIsNormal(bigits, 2 * done);
      if bit {
        Multiply32(5);
      }
    }
  }

  method Compare(lhs: Bigint, rhs: Bigint) returns (c: int)
    requires Normal(rhs.Model())
    requires Normal(lhs.Model()) || (IsZero(lhs.Model()) && lhs.exp <= rhs.exp)
    ensures c == CompareResult(lhs.Model(), rhs.Model())
  {
    ghost var l, r := lhs.Model(), rhs.Model();
    if |lhs.bigits| + lhs.exp != |rhs.bigits| + rhs.exp {
      CompareByNum(l, r);
      return if |lhs.bigits| + lhs.exp > |rhs.bigits| + rhs.exp then 1 else -1;
    }
    var i, j := |lhs.bigits| - 1, |rhs.bigits| - 1;
    var end := if i - j < 0 then 0 else i - j;
    ghost var k := l.Num() - 1;
    while i >= end
      invariant end - 1 <= i < |lhs.bigits| && k == i + lhs.exp == j + rhs.exp
      invariant High(l, k + 1) == High(r, k + 1)
    {
      var lhsBigit, rhsBigit := lhs.bigits[i], rhs.bigits[j];
      assert Digit(l, k) == lhsBigit && Digit(r, k) == rhsBigit;
      if lhsBigit != rhsBigit {
        CompareByDigit(l, r, k);
        return if lhsBigit > rhsBigit then 1 else -1;
      }
      HighAgrees(l, r, k);
      i, j, k := i - 1, j - 1, k - 1;
    }
    CompareByLength(l, r);
    if i != j {
      return if i > j then 1 else -1;
    }
    return 0;
  }

  // What add_compare carries from the positions from i on.
  ghost predicate Carried(a: Big, b: Big, r: Big, i: nat, borrow: nat) {
    borrow == TWO32 * Debt(a, b, r, i) && (borrow == 0 || borrow == TWO32)
  }

  // One bigit: the debt is carried on, or has left 0 and 1 and decides.
  lemma RoundDecides(a: Big, b: Big, r: Big, i: nat, borrow: nat)
    requires i < r.Num() && a.Num() <= r.Num() && b.Num() <= r.Num() && Carried(a, b, r, i + 1, borrow)
    ensures var debt := Digit(r, i) + borrow - (Digit(a, i) + Digit(b, i));
      && (debt < 0 ==> Value(a) + Value(b) > Value(r))
      && (debt > 1 ==> Value(a) + Value(b) < Value(r))
      && (0 <= debt <= 1 ==> Carried(a, b, r, i, debt * TWO32))
  {
    DebtStep(a, b, r, i);
    DebtDecides(a, b, r, i);
  }

  // The sign of lhs1 + lhs2 - rhs, without forming the sum.
  method AddCompare(lhs1: Bigint, lhs2: Bigint, rhs: Bigint) returns (c: int)
    requires Normal(lhs1.Model()) && Normal(lhs2.Model()) && Normal(rhs.Model())
    ensures c == Sign(Value(lhs1.Model()) + Value(lhs2.Model()) - Value(rhs.Model()))
  {
    ghost var a, b, r := lhs1.Model(), lhs2.Model(), rhs.Model();
    var num1, num2, numRhs := |lhs1.bigits| + lhs1.exp, |lhs2.bigits| + lhs2.exp, |rhs.bigits| + rhs.exp;
    var maxLhs := if num1 > num2 then num1 else num2;
    SumByNum(a, b, r);
    if maxLhs + 1 < numRhs { return -1; }
    if maxLhs > numRhs { return 1; }
    var borrow: uint64 := 0;
    var minExp := if lhs1.exp < lhs2.exp then lhs1.exp else lhs2.exp;
    minExp := if rhs.exp < minExp then rhs.exp else minExp;
    var i := numRhs - 1;
    while i >= minExp
      invariant minExp - 1 <= i < numRhs
      invariant Carried(a, b, r, i + 1, borrow)
    {
      RoundDecides(a, b, r, i, borrow);
      var sum: uint64 := GetBigit(lhs1, i) + GetBigit(lhs2, i);
      var rhsBigit: uint64 := GetBigit(rhs, i);
      if sum > rhsBigit + borrow { return 1; }
      borrow := rhsBigit + borrow - sum;
      if borrow > 1 { return -1; }
      borrow := borrow * TWO32;
      i := i - 1;
    }
    DebtDecides(a, b, r, minExp);
    assert borrow != 0 <==> Debt(a, b, r, minExp) == 1;
    return if borrow != 0 then -1 else 0;
  }

  function GetBigit(n: Bigint, i: int): (d: int)
    requires i >= 0
    reads n
    ensures d == Digit(n.Model(), i)
  {
    if i >= n.exp && i < |n.bigits| + n.exp then n.bigits[i - n.exp] else 0
  }

  // A number that is not less reaches as far up.
  lemma FitsBelow(n: Big, m: Big)
    requires Normal(m) && Value(n) >= Value(m)
    ensures m.Num() <= n.Num()
  {
    if m.Num() > n.Num() {
      MoreBigitsIsGreater(m, n);
    }
  }

  lemma ScaledDown(n: Big, m: Big)
    requires m.exp >= n.exp
    ensures Value(m) == MovedUp(m, m.exp - n.exp) * Pow(TWO32, n.exp)
  {
    PowAdd(TWO32, m.exp - n.exp, n.exp);
    MulShuffle(Pow(TWO32, m.exp - n.exp), Eval(m.bigits), Pow(TWO32, n.exp));
  }

  // A borrow that is left can be taken from a higher bigit.
  lemma BorrowHasRoom(n: Big, m: Big, now: nat, borrow: nat)
    requires m.exp >= n.exp && Value(n) >= Value(m) && m.Num() <= n.Num()
    requires var i := m.exp - n.exp + |m.bigits|;
      borrow == 0 <==> Eval(n.bigits[..i]) >= MovedUp(m, m.exp - n.exp)
    ensures borrow > 0 ==> m.exp - n.exp + |m.bigits| < |n.bigits|
  {
    var i := m.exp - n.exp + |m.bigits|;
    if borrow > 0 && i == |n.bigits| {
      assert n.bigits[..i] == n.bigits;
      ScaledDown(n, m);
      PowPositive(TWO32, n.exp);
      Scaled(Eval(n.bigits), MovedUp(m, m.exp - n.exp), Pow(TWO32, n.exp));
    }
  }

  // What settling the borrow in place makes of the digits.
  lemma SettledDigits(now: seq<bigit>, i: nat, start: nat, x: nat)
    requires i < |now| && Eval(now) + x == start + Pow(TWO32, i)
    ensures var settled := now[i := if now[i] > 0 then now[i] - 1 else TWO32 - 2];
      Eval(settled) == start - x <==> now[i] != 0
  {
    var p := Pow(TWO32, i);
    PowPositive(TWO32, i);
    var d: bigit := if now[i] > 0 then now[i] - 1 else TWO32 - 2;
    ReplaceBigit(now, i, d);
    if now[i] == 0 {
      assert p * (d - now[i]) == p * (TWO32 - 2);
      MulAtLeast(p, TWO32 - 2);
    } else {
      assert p * (d - now[i]) == -p;
    }
  }

  lemma SettledValue(n: Big, m: Big, now: seq<bigit>, settled: seq<bigit>, borrow: nat)
    requires m.exp >= n.exp && borrow <= 1 && |now| == |n.bigits|
    requires var i := m.exp - n.exp + |m.bigits|;
      && i <= |now| && (borrow == 1 ==> i < |now|)
      && (i < |now| ==> now[i] == n.bigits[i])
      && Eval(now) + MovedUp(m, m.exp - n.exp) == Eval(n.bigits) + (if borrow == 0 then 0 else Pow(TWO32, i))
      && (borrow == 0 <==> Eval(n.bigits[..i]) >= MovedUp(m, m.exp - n.exp))
      && settled == if borrow == 0 then now else now[i := if now[i] > 0 then now[i] - 1 else TWO32 - 2]
    ensures Eval(settled) * Pow(TWO32, n.exp) == Value(n) - Value(m) <==> BorrowStops(n, m)
  {
    var x := MovedUp(m, m.exp - n.exp);
    assert Eval(settled) == Eval(n.bigits) - x <==> BorrowStops(n, m) by {
      if borrow == 1 {
        SettledDigits(now, m.exp - n.exp + |m.bigits|, Eval(n.bigits), x);
      }
    }
    ScaledDown(n, m);
    PowPositive(TWO32, n.exp);
    DifferenceScaled(Eval(settled), Eval(n.bigits), x, Pow(TWO32, n.exp));
  }

  lemma DifferenceScaled(r: nat, a: nat, x: nat, q: nat)
    requires q > 0
    ensures r * q == a * q - x * q <==> r == a - x
  {
    SameAfterScaling(r + x, a, q);
    assert (r + x) * q == r * q + x * q;
  }

  lemma SameAfterScaling(x: int, y: int, q: nat)
    requires q > 0
    ensures x == y <==> x * q == y * q
  {
    Scaled(x, y, q);
  }

  // What a comparison tells when the dividend is not written shorter than the divisor.
  lemma CompareMeans(n: Big, d: Big)
    requires Normal(d) && (Normal(n) || (IsZero(n) && n.exp <= d.exp))
    ensures PaddedTwin(n, d) ==> Value(n) == Value(d)
    ensures CompareResult(n, d) >= 0 ==> Value(n) >= Value(d) && Normal(n)
    ensures CompareResult(n, d) < 0 ==> Value(n) < Value(d) || (PaddedTwin(n, d) && n.exp > d.exp)
    ensures PaddedTwin(n, d) && n.exp > d.exp ==> CompareResult(n, d) < 0
  {
    if PaddedTwin(n, d) {
      if |n.bigits| > |d.bigits| { TwinsAreEqual(n, d); } else { TwinsAreEqual(d, n); }
    }
    if IsZero(n) {
      ZeroBelow(n, d);
    }
  }

  function Aligned(n: Big, e: nat): Big {
    if n.exp <= e then n else Big(Zeros(n.exp - e) + n.bigits, e)
  }

  lemma AlignKeepsValue(n: Big, e: nat)
    ensures Value(Aligned(n, e)) == Value(n)
    ensures Normal(n) ==> Normal(Aligned(n, e))
  {
    if n.exp > e {
      var z := n.exp - e;
      EvalConcat(Zeros(z), n.bigits);
      EvalZeros(z);
      PowAdd(TWO32, z, e);
      MulShuffle(Pow(TWO32, z), Eval(n.bigits), Pow(TWO32, e));
    }
  }

  // Below 2^31 times the divisor there is at most one bigit above its top one.
  lemma BorrowStopsInDivision(n: Big, d: Big, q: nat, total: nat)
    requires Normal(n) && Normal(d) && n.exp <= d.exp
    requires q * Value(d) + Value(n) == total < 0x8000_0000 * Value(d)
    ensures BorrowStops(n, d)
  {
    assert q * Value(d) >= 0;
    if n.Num() > d.Num() + 1 {
      ValueAtLeast(n);
      ValueBelow(d, d.Num());
      PowMonotone(TWO32, d.Num() + 1, n.Num() - 1);
      TooFarUp(Value(n), Value(d), Pow(TWO32, d.Num()));
    }
    assert n.Num() <= d.Num() + 1;
  }

  lemma TooFarUp(n: nat, d: nat, p: nat)
    requires d < p && n >= TWO32 * p
    ensures n >= 0x8000_0000 * d
  {
  }

  lemma DivisionStep(q: nat, d: nat, v: nat)
    ensures (q + 1) * d + (v - d) == q * d + v
  {
  }

  lemma QuotientFits(q: nat, d: nat, rest: nat, total: nat)
    requires q * d + rest == total < 0x8000_0000 * d
    ensures q < 0x8000_0000
  {
    if q >= 0x8000_0000 {
      MulMonotone(0x8000_0000, q, d);
    }
  }

  method FindTopBit(e: nat) returns (bitmask: nat, ghost k: nat)
    requires e > 0
    ensures bitmask == Pow(2, k) && bitmask <= e < 2 * bitmask
  {
    bitmask, k := 1, 0;
    while e >= bitmask
      invariant bitmask == Pow(2, k) && bitmask > 0 && (k > 0 ==> e >= Pow(2, k - 1))
      decreases e - bitmask
    {
      bitmask, k := bitmask * 2, k + 1;
    }
    assert k > 0;
    bitmask, k := bitmask / 2, k - 1;
  }

  // The bits of e above the mask 2^k are worked off and make up `done`.
  ghost predicate BitsDone(e: nat, bitmask: nat, k: int, done: nat) {
    if bitmask == 0 then done == e else k >= 0 && bitmask == Pow(2, k) && done == e / (2 * bitmask)
  }

  lemma NextBit(e: nat, bitmask: nat, k: int, done: nat)
    requires BitsDone(e, bitmask, k, done) && bitmask > 0
    ensures 2 * done <= e && e / bitmask == 2 * done + (e / bitmask) % 2
    ensures BitsDone(e, bitmask / 2, k - 1, e / bitmask)
  {
    BitStep(e, bitmask);
    HalvePower(k);
    assert e / 1 == e;
    QuotientAtMost(e, bitmask);
  }

  lemma QuotientAtMost(e: nat, m: nat)
    requires m > 0
    ensures e / m <= e
  {
    assert e == m * (e / m) + e % m;
    MulMonotone(1, m, e / m);
  }

  lemma TopBit(e: nat, m: nat)
    requires m <= e < 2 * m
    ensures e / m == 1
  {
  }

  // The bit of e at the mask, below the bits above it.
  lemma BitSplit(m: nat, h: nat, b: nat, r: nat)
    requires b < 2 && r < m
    ensures m * (2 * h + b) + r == h * (2 * m) + (m * b + r) && m * b + r < 2 * m
  {
    Distribute(m, 2 * h, b);
    MulAssociates(h, 2, m);
    assert m * b == if b == 0 then 0 else m;
  }

  lemma BitStep(e: nat, m: nat)
    requires m > 0
    ensures e / m == 2 * (e / (2 * m)) + (e / m) % 2
  {
    var d, r := e / m, e % m;
    var h, b := d / 2, d % 2;
    assert e == m * d + r;
    BitSplit(m, h, b, r);
    DivisionIs(e, 2 * m, h, m * b + r);
  }

  lemma HalvePower(k: nat)
    ensures Pow(2, k) / 2 == if k == 0 then 0 else Pow(2, k - 1)
  {
    assert Pow(2, 0) == 1;
  }

  // 5^e has at most e + 1 bigits.
  lemma FiveFits(s: seq<bigit>, e: nat)
    requires |s| > 0 && s[|s| - 1] != 0 && Eval(s) == Pow(5, e)
    ensures |s| <= e + 1
  {
    EvalAtLeast(s);
    if |s| - 1 > e {
      PowMonotone(TWO32, e + 1, |s| - 1);
      FiveBelow(e);
    }
  }

  lemma {:induction false} FiveBelow(e: nat)
    ensures Pow(5, e) < Pow(TWO32, e + 1)
    decreases e
  {
    if e > 0 {
      FiveBelow(e - 1);
      MulMonotone(5, TWO32, Pow(TWO32, e));
    } else {
      assert Pow(5, 0) == 1 && Pow(TWO32, 1) == TWO32 * Pow(TWO32, 0) && Pow(TWO32, 0) == 1;
    }
  }

  lemma FiveIsNormal(s: seq<bigit>, e: nat)
    requires Eval(s) == Pow(5, e)
    ensures s != [0]
  {
    PowPositive(5, e);
    assert Eval([0]) == 0;
  }

  // The cross products n[i] * n[j] with i + j == c, for c below the number of bigits.
  method AddLowColumn(sum: Accumulator, n: seq<bigit>, c: nat)
    requires c < |n| && sum.Total() + Column(n, n, c) < 0x4000_0000 * (TWO32 * TWO32)
    modifies sum
    ensures sum.Total() == old(sum.Total()) + Column(n, n, c)
  {
    var i, j := 0, c;
    assert n[0..] == n;
    while j >= 0
      invariant 0 <= i <= |n| && -1 <= j && i + j == c
      invariant sum.Total() + Column(n[i..], n, j) == old(sum.Total()) + Column(n, n, c)
    {
      ColumnNext(n, n, i, j);
      sum.AddProduct(n[i], n[j]);
      i, j := i + 1, j - 1;
    }
    ColumnBeforeStart(n[i..], n, j);
  }

  // The same for the upper half, where i starts past the terms that have no partner.
  method AddHighColumn(sum: Accumulator, n: seq<bigit>, c: nat)
    requires |n| <= c < 2 * |n| && sum.Total() + Column(n, n, c) < 0x4000_0000 * (TWO32 * TWO32)
    modifies sum
    ensures sum.Total() == old(sum.Total()) + Column(n, n, c)
  {
    var j := |n| - 1;
    var i := c - j;
    ColumnSkips(n, n, c, i);
    AddTerms(sum, n, i, j);
  }

  method AddTerms(sum: Accumulator, n: seq<bigit>, start: nat, last: int)
    requires start <= |n| && 0 <= last < |n| && start + last >= |n|
    requires sum.Total() + Column(n[start..], n, last) < 0x4000_0000 * (TWO32 * TWO32)
    modifies sum
    ensures sum.Total() == old(sum.Total()) + Column(n[start..], n, last)
  {
    var i, j := start, last;
    while i < |n|
      invariant start <= i <= |n| && i + j == start + last
      invariant sum.Total() + Column(n[i..], n, j) == old(sum.Total()) + Column(n[start..], n, last)
    {
      ColumnNext(n, n, i, j);
      sum.AddProduct(n[i], n[j]);
      i, j := i + 1, j - 1;
    }
  }

  lemma SplitCarry(carry: nat, p: nat)
    ensures p * (carry % TWO32) + (carry / TWO32) * (TWO32 * p) == carry * p
  {
    assert carry == carry % TWO32 + TWO32 * (carry / TWO32);
    assert p * (carry % TWO32 + TWO32 * (carry / TWO32)) == p * (carry % TWO32) + p * (TWO32 * (carry / TWO32));
    assert p * (TWO32 * (carry / TWO32)) == (carry / TWO32) * (TWO32 * p);
  }

  // Whole words of the shift go to the exponent.
  lemma ShiftValue(n: Big, shift: nat)
    ensures Eval(n.bigits) * Pow(2, shift % 32) * Pow(TWO32, n.exp + shift / 32) == Value(n) * Pow(2, shift)
  {
    var w, s := shift / 32, shift % 32;
    TwoTo32();
    PowOfPow(2, 32, w);
    PowAdd(2, 32 * w, s);
    PowAdd(TWO32, n.exp, w);
    MulSwap(Eval(n.bigits), Pow(2, s), Pow(TWO32, n.exp), Pow(TWO32, w));
  }

  lemma SmallPower(s: nat)
    requires 0 < s < 32
    ensures Pow(2, s) * Pow(2, 32 - s) == TWO32 && 0 < Pow(2, s) < TWO32 && Pow(2, 32 - s) > 0
  {
    PowAdd(2, s, 32 - s);
    TwoTo32();
    PowPositive(2, s);
    PowPositive(2, 31 - s);
    FactorIsBelow(Pow(2, s), Pow(2, 32 - s), TWO32);
  }

  // The two halves of a shifted bigit.
  lemma ShiftDigit(b: bigit, s: nat, carry: nat)
    requires 0 < s < 32 && carry < Pow(2, s)
    ensures Pow(2, 32 - s) > 0
    ensures var c, d := b / Pow(2, 32 - s), (b * Pow(2, s)) % TWO32 + carry;
      && 0 <= c < Pow(2, s) && 0 <= d < TWO32 && b * Pow(2, s) + carry == d + TWO32 * c
  {
    SmallPower(s);
    ShiftWithin(b, Pow(2, s), Pow(2, 32 - s), carry);
  }

  lemma ShiftWithin(b: nat, x: nat, y: nat, carry: nat)
    requires x * y == TWO32 && x > 0 && y > 0 && b < TWO32 && carry < x
    ensures var c, d := b / y, (b * x) % TWO32 + carry;
      && 0 <= c < x && 0 <= d < TWO32 && b * x + carry == d + TWO32 * c
  {
    var c, r := b / y, b % y;
    assert b == y * c + r;
    assert b * x == (y * c) * x + r * x;
    assert (y * c) * x == TWO32 * c;
    assert (r + 1) * x <= y * x;
    assert 0 <= r * x < TWO32;
    SplitRemainder(b * x, c, r * x);
    if c >= x {
      MulMonotone(x, c, y);
    }
    assert (r + 1) * x == r * x + x;
  }

  lemma SplitRemainder(v: nat, c: nat, r: nat)
    requires v == TWO32 * c + r && r < TWO32
    ensures v % TWO32 == r
  {
  }
}
