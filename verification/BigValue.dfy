// The number a bigint of fmt's format-inl.h stands for, and how two of them compare: bigits
// from position exp on, with the positions below exp taken as zero.

module BigValue {
  import opened Numbers
  import opened Words

  datatype Big = Big(bigits: seq<bigit>, exp: nat) {
    function Num(): nat { |bigits| + exp }
  }

  function Value(n: Big): nat {
    Eval(n.bigits) * Pow(TWO32, n.exp)
  }

  // No leading zero bigit.
  predicate Normal(n: Big) {
    |n.bigits| > 0 && n.bigits[|n.bigits| - 1] != 0
  }

  predicate IsZero(n: Big) {
    n.bigits == [0]
  }

  function Sign(i: int): int {
    if i > 0 then 1 else if i < 0 then -1 else 0
  }

  // get_bigit: the bigit at an absolute position.
  function Digit(n: Big, i: nat): bigit {
    if n.exp <= i < n.Num() then n.bigits[i - n.exp] else 0
  }

  // The number formed by the positions from i on, and by those below i.
  function High(n: Big, i: nat): nat
    decreases n.Num() - i
  {
    if i >= n.Num() then 0 else Digit(n, i) + TWO32 * High(n, i + 1)
  }

  function Low(n: Big, i: nat): nat {
    if i == 0 then 0 else Low(n, i - 1) + Digit(n, i - 1) * Pow(TWO32, i - 1)
  }

  lemma {:induction false} HighInBigits(n: Big, i: nat)
    requires n.exp <= i <= n.Num()
    ensures High(n, i) == Eval(n.bigits[i - n.exp..])
    decreases n.Num() - i
  {
    if i < n.Num() {
      HighInBigits(n, i + 1);
      assert n.bigits[i - n.exp..][1..] == n.bigits[i + 1 - n.exp..];
    }
  }

  lemma {:induction false} HighBelowExp(n: Big, i: nat)
    requires i <= n.exp
    ensures High(n, i) == Eval(n.bigits) * Pow(TWO32, n.exp - i)
    decreases n.exp - i
  {
    if i == n.exp {
      HighInBigits(n, i);
      assert n.bigits[0..] == n.bigits;
    } else if i < n.Num() {
      HighBelowExp(n, i + 1);
      var e, p := Eval(n.bigits), Pow(TWO32, n.exp - i - 1);
      assert TWO32 * (e * p) == e * (TWO32 * p);
    }
  }

  lemma HighFromZero(n: Big)
    ensures High(n, 0) == Value(n)
  {
    HighBelowExp(n, 0);
  }

  // A number is its high part shifted up and its low part, which fits below.
  lemma {:induction false} SplitAt(n: Big, i: nat)
    ensures Value(n) == High(n, i) * Pow(TWO32, i) + Low(n, i)
    ensures Low(n, i) < Pow(TWO32, i)
  {
    if i == 0 {
      HighFromZero(n);
    } else {
      SplitAt(n, i - 1);
      assert High(n, i - 1) == Digit(n, i - 1) + TWO32 * High(n, i);
      MoveDigit(High(n, i), Digit(n, i - 1), Pow(TWO32, i - 1), Low(n, i - 1));
    }
  }

  lemma MoveDigit(h: nat, d: bigit, p: nat, low: nat)
    requires low < p
    ensures (d + TWO32 * h) * p + low == h * (TWO32 * p) + (low + d * p)
    ensures low + d * p < TWO32 * p
  {
    assert (d + TWO32 * h) * p == d * p + (TWO32 * h) * p;
    assert (TWO32 * h) * p == h * (TWO32 * p);
    assert (d + 1) * p <= TWO32 * p;
  }

  lemma {:induction false} NothingBelowExp(n: Big, i: nat)
    requires i <= n.exp
    ensures Low(n, i) == 0
  {
    if i > 0 {
      NothingBelowExp(n, i - 1);
    }
  }

  // The positions from i on decide, unless they agree.
  lemma HighDecides(l: Big, r: Big, i: nat)
    requires High(l, i) != High(r, i)
    ensures Sign(Value(l) - Value(r)) == Sign(High(l, i) - High(r, i))
  {
    SplitAt(l, i);
    SplitAt(r, i);
    Scaled(High(l, i), High(r, i), Pow(TWO32, i));
  }

  lemma Scaled(x: int, y: int, p: nat)
    ensures x < y ==> (y - x) * p >= p && y * p - x * p >= p
    ensures x > y ==> (x - y) * p >= p && x * p - y * p >= p
  {
    if x < y {
      MulAtLeast(p, y - x);
      assert (y - x) * p == y * p - x * p;
    } else if x > y {
      MulAtLeast(p, x - y);
      assert (x - y) * p == x * p - y * p;
    }
  }

  lemma MoreBigitsIsGreater(l: Big, r: Big)
    requires Normal(l) && l.Num() > r.Num()
    ensures Value(l) > Value(r)
  {
    var i := l.Num() - 1;
    HighInBigits(l, i);
    assert Eval(l.bigits[i - l.exp..]) == l.bigits[i - l.exp];
    HighDecides(l, r, i);
  }

  // One number written twice: the longer one has zero bigits where the other has none.
  predicate PaddedTwin(l: Big, r: Big) {
    && l.Num() == r.Num() && |l.bigits| != |r.bigits|
    && (if |l.bigits| > |r.bigits|
        then l.bigits == Zeros(|l.bigits| - |r.bigits|) + r.bigits
        else r.bigits == Zeros(|r.bigits| - |l.bigits|) + l.bigits)
  }

  lemma {:induction false} SameHighSameDigits(l: Big, r: Big, i: nat, k: nat)
    requires High(l, i) == High(r, i) && l.Num() == r.Num() && i <= k < l.Num()
    ensures Digit(l, k) == Digit(r, k)
    decreases k - i
  {
    var x, y := High(l, i + 1), High(r, i + 1);
    assert Digit(l, i) + TWO32 * x == Digit(r, i) + TWO32 * y;
    assert x == y;
    if i < k {
      SameHighSameDigits(l, r, i + 1, k);
    }
  }

  // Two normal bigints are equal in value iff they are the same or padded twins.
  lemma EqualValues(l: Big, r: Big)
    requires Normal(l) && Normal(r)
    ensures Value(l) == Value(r) <==> l == r || PaddedTwin(l, r)
  {
    if Value(l) == Value(r) {
      if l.Num() > r.Num() { MoreBigitsIsGreater(l, r); }
      if r.Num() > l.Num() { MoreBigitsIsGreater(r, l); }
      HighFromZero(l);
      HighFromZero(r);
      forall k | 0 <= k < l.Num()
        ensures Digit(l, k) == Digit(r, k)
      {
        SameHighSameDigits(l, r, 0, k);
      }
      if |l.bigits| >= |r.bigits| {
        DigitsGiveTwin(l, r);
      } else {
        DigitsGiveTwin(r, l);
      }
    }
    if PaddedTwin(l, r) {
      if |l.bigits| > |r.bigits| {
        TwinsAreEqual(l, r);
      } else {
        TwinsAreEqual(r, l);
      }
    }
  }

  lemma DigitsGiveTwin(l: Big, r: Big)
    requires l.Num() == r.Num() && |l.bigits| >= |r.bigits|
    requires forall k :: 0 <= k < l.Num() ==> Digit(l, k) == Digit(r, k)
    ensures l.bigits == Zeros(|l.bigits| - |r.bigits|) + r.bigits
  {
    var z := |l.bigits| - |r.bigits|;
    forall k | 0 <= k < |l.bigits|
      ensures l.bigits[k] == (Zeros(z) + r.bigits)[k]
    {
      assert Digit(l, k + l.exp) == Digit(r, k + l.exp);
    }
  }

  lemma TwinsAreEqual(l: Big, r: Big)
    requires PaddedTwin(l, r) && |l.bigits| > |r.bigits|
    ensures Value(l) == Value(r)
  {
    var z := |l.bigits| - |r.bigits|;
    EvalConcat(Zeros(z), r.bigits);
    EvalZeros(z);
    PowAdd(TWO32, z, l.exp);
    MulShuffle(Pow(TWO32, z), Eval(r.bigits), Pow(TWO32, l.exp));
  }

  lemma MulShuffle(p: nat, e: nat, q: nat)
    ensures (p * e) * q == e * (p * q)
  {
  }

  // What `compare` returns: the sign of the difference, except on padded twins, where the
  // one with the extra zero bigits counts as greater.
  function CompareResult(l: Big, r: Big): int {
    if PaddedTwin(l, r) then (if |l.bigits| > |r.bigits| then 1 else -1)
    else Sign(Value(l) - Value(r))
  }

  lemma ZeroBelow(l: Big, r: Big)
    requires IsZero(l) && Normal(r)
    ensures Value(l) == 0 && Value(r) > 0
  {
    assert Eval([0]) == 0;
    EvalAtLeast(r.bigits);
    PowPositive(TWO32, |r.bigits| - 1);
    PowPositive(TWO32, r.exp);
    MulAtLeast(Pow(TWO32, r.exp), Eval(r.bigits));
  }

  // All bigits the shorter one has agree: the longer one is greater, if they differ at all.
  lemma LongerIsNotLess(l: Big, r: Big)
    requires l.Num() == r.Num() && |l.bigits| >= |r.bigits| && High(l, r.exp) == High(r, r.exp)
    ensures Value(l) >= Value(r)
    ensures |l.bigits| == |r.bigits| ==> Value(l) == Value(r)
  {
    SplitAt(l, r.exp);
    SplitAt(r, r.exp);
    NothingBelowExp(r, r.exp);
    if |l.bigits| == |r.bigits| {
      NothingBelowExp(l, r.exp);
    }
  }

  lemma CompareByNum(l: Big, r: Big)
    requires l.Num() != r.Num() && Normal(r) && (Normal(l) || (IsZero(l) && l.exp <= r.exp))
    ensures CompareResult(l, r) == if l.Num() > r.Num() then 1 else -1
  {
    if Normal(l) && l.Num() > r.Num() {
      MoreBigitsIsGreater(l, r);
    } else if Normal(l) {
      MoreBigitsIsGreater(r, l);
    } else {
      ZeroBelow(l, r);
    }
  }

  lemma CompareByLength(l: Big, r: Big)
    requires l.Num() == r.Num() && Normal(r) && (Normal(l) || (IsZero(l) && l.exp <= r.exp))
    requires var e := if l.exp > r.exp then l.exp else r.exp; High(l, e) == High(r, e)
    ensures CompareResult(l, r) == Sign(|l.bigits| - |r.bigits|)
  {
    if |l.bigits| >= |r.bigits| {
      LongerIsNotLess(l, r);
    } else {
      LongerIsNotLess(r, l);
    }
    if Normal(l) {
      EqualValues(l, r);
    } else {
      ZeroBelow(l, r);
    }
  }

  lemma CompareByDigit(l: Big, r: Big, i: nat)
    requires l.Num() == r.Num() && i < l.Num() && High(l, i + 1) == High(r, i + 1)
    requires Digit(l, i) != Digit(r, i)
    ensures CompareResult(l, r) == if Digit(l, i) > Digit(r, i) then 1 else -1
  {
    HighDecides(l, r, i);
    if PaddedTwin(l, r) {
      if |l.bigits| > |r.bigits| { TwinsAreEqual(l, r); } else { TwinsAreEqual(r, l); }
    }
  }

  // ---- sums of two against one ----

  // lhs1 + lhs2 - rhs on the positions from i on, negated: what add_compare carries along.
  function Debt(a: Big, b: Big, r: Big, i: nat): int {
    High(r, i) - High(a, i) - High(b, i)
  }

  lemma DebtDecides(a: Big, b: Big, r: Big, i: nat)
    ensures Debt(a, b, r, i) < 0 ==> Value(a) + Value(b) > Value(r)
    ensures Debt(a, b, r, i) > 1 ==> Value(a) + Value(b) < Value(r)
    ensures i <= a.exp && i <= b.exp && i <= r.exp ==>
      Sign(Value(a) + Value(b) - Value(r)) == -Sign(Debt(a, b, r, i))
  {
    SplitAt(a, i);
    SplitAt(b, i);
    SplitAt(r, i);
    DebtArithmetic(High(a, i), High(b, i), High(r, i), Low(a, i), Low(b, i), Low(r, i), Pow(TWO32, i));
    if i <= a.exp && i <= b.exp && i <= r.exp {
      NothingBelowExp(a, i);
      NothingBelowExp(b, i);
      NothingBelowExp(r, i);
    }
  }

  lemma DebtArithmetic(ha: nat, hb: nat, hr: nat, la: nat, lb: nat, lr: nat, p: nat)
    requires la < p && lb < p && lr < p
    ensures var d, v := hr - ha - hb, (ha * p + la) + (hb * p + lb) - (hr * p + lr);
      && (d < 0 ==> v > 0)
      && (d > 1 ==> v < 0)
      && (la == lb == lr == 0 ==> Sign(v) == -Sign(d))
  {
    var d := hr - ha - hb;
    assert hr * p - ha * p - hb * p == d * p;
    DebtTimesPower(d, p);
  }

  lemma DebtTimesPower(d: int, p: int)
    requires p > 0
    ensures d < 0 ==> d * p <= -p
    ensures d > 1 ==> d * p >= 2 * p
    ensures d == 0 ==> d * p == 0
    ensures d == 1 ==> d * p == p
  {
    if d < 0 {
      MulAtLeast(p, -d);
      assert p * -d == -(d * p);
    } else if d > 1 {
      MulAtLeast(p, d - 1);
      assert p * (d - 1) == d * p - p;
    }
  }

  lemma DebtStep(a: Big, b: Big, r: Big, i: nat)
    requires i < r.Num() && a.Num() <= r.Num() && b.Num() <= r.Num()
    ensures Debt(a, b, r, i) == Digit(r, i) + TWO32 * Debt(a, b, r, i + 1) - (Digit(a, i) + Digit(b, i))
  {
    HighStep(a, i);
    HighStep(b, i);
    HighStep(r, i);
  }

  lemma HighStep(n: Big, i: nat)
    ensures High(n, i) == Digit(n, i) + TWO32 * High(n, i + 1)
  {
  }

  lemma HighAgrees(l: Big, r: Big, i: nat)
    requires High(l, i + 1) == High(r, i + 1) && Digit(l, i) == Digit(r, i)
    ensures High(l, i) == High(r, i)
  {
    HighStep(l, i);
    HighStep(r, i);
  }

  lemma ValueBelow(n: Big, k: nat)
    requires n.Num() <= k
    ensures Value(n) < Pow(TWO32, k)
  {
    SplitAt(n, n.Num());
    PowMonotone(TWO32, n.Num(), k);
  }

  lemma ValueAtLeast(n: Big)
    requires Normal(n)
    ensures Value(n) >= Pow(TWO32, n.Num() - 1)
  {
    EvalAtLeast(n.bigits);
    PowAdd(TWO32, |n.bigits| - 1, n.exp);
    MulMonotone(Pow(TWO32, |n.bigits| - 1), Eval(n.bigits), Pow(TWO32, n.exp));
  }

  // One bigit more than either summand, or one less, settles it.
  lemma SumByNum(a: Big, b: Big, r: Big)
    requires Normal(a) && Normal(b) && Normal(r)
    ensures var m := if a.Num() > b.Num() then a.Num() else b.Num();
      && (m + 1 < r.Num() ==> Value(a) + Value(b) < Value(r))
      && (m > r.Num() ==> Value(a) + Value(b) > Value(r))
  {
    var m := if a.Num() > b.Num() then a.Num() else b.Num();
    if m + 1 < r.Num() {
      ValueBelow(a, m);
      ValueBelow(b, m);
      ValueAtLeast(r);
      PowMonotone(TWO32, m + 1, r.Num() - 1);
      assert Pow(TWO32, m + 1) == TWO32 * Pow(TWO32, m);
    } else if m > r.Num() {
      if a.Num() == m { MoreBigitsIsGreater(a, r); } else { MoreBigitsIsGreater(b, r); }
    }
  }

  // ---- subtraction ----

  // The bigits of m moved up by off positions.
  function MovedUp(m: Big, off: nat): nat {
    Pow(TWO32, off) * Eval(m.bigits)
  }

  // Where subtract_aligned leaves off, the borrow is gone or meets a bigit it can be taken from.
  predicate BorrowStops(n: Big, m: Big)
    requires m.exp >= n.exp
  {
    var off := m.exp - n.exp;
    var i := off + |m.bigits|;
    i >= |n.bigits| || n.bigits[i] != 0 || Eval(n.bigits[..i]) >= MovedUp(m, off)
  }

  // So `compare` is not the comparison of the numbers: 2^32 written with a low zero bigit
  // counts as greater than 2^32 written with exponent 1.
  lemma CompareMistake()
    ensures var l, r := Big([0, 1], 0), Big([1], 1);
      Normal(l) && Normal(r) && Value(l) == Value(r) && CompareResult(l, r) == 1 && CompareResult(r, l) == -1
  {
    var l, r := Big([0, 1], 0), Big([1], 1);
    assert Zeros(1) + r.bigits == l.bigits;
    EqualValues(l, r);
  }

  // And subtract_aligned does not always subtract: taking 1 from 2^64 needs a borrow across a zero bigit.
  lemma BorrowMistake()
    ensures var n, m := Big([0, 0, 1], 0), Big([1], 0);
      Normal(n) && Normal(m) && Value(n) > Value(m) && !BorrowStops(n, m)
  {
    var n, m := Big([0, 0, 1], 0), Big([1], 0);
    assert n.bigits[..1] == [0];
    assert Eval([0]) == 0 && Eval([1]) == 1 && Pow(TWO32, 0) == 1;
    MoreBigitsIsGreater(n, m);
  }
}
