// The arithmetic behind the loops of bigint: carries, borrows, and the columns of a product.

module BigArithmetic {
  import opened Numbers
  import opened Words

  // ---- multiplication by one word ----

  lemma CarryStep(done: nat, out: nat, p: nat, s: nat, value: nat, carry: nat, digit: nat, carry': nat)
    requires out + carry * p == done * value
    requires s * value + carry == digit + TWO32 * carry'
    ensures (out + p * digit) + carry' * (TWO32 * p) == (done + p * s) * value
  {
    assert p * (s * value + carry) == p * (digit + TWO32 * carry');
    assert p * (s * value) == (p * s) * value;
    assert p * (TWO32 * carry') == carry' * (TWO32 * p);
    assert (done + p * s) * value == done * value + (p * s) * value;
    assert p * carry == carry * p;
  }

  // A loop that rewrites the bigits from the low end, multiplying by f: the part before i is
  // done, up to a carry, and the rest is as it was.
  ghost predicate Scaling(start: seq<bigit>, now: seq<bigit>, i: nat, f: nat, carry: nat) {
    && i <= |start| == |now|
    && (forall k :: i <= k < |now| ==> now[k] == start[k])
    && Eval(now[..i]) + carry * Pow(TWO32, i) == Eval(start[..i]) * f
  }

  lemma ScalingStarts(start: seq<bigit>, f: nat)
    ensures Scaling(start, start, 0, f, 0)
  {
    assert Eval(start[..0]) == 0;
  }

  lemma ScalingStep(start: seq<bigit>, now: seq<bigit>, i: nat, f: nat, carry: nat, digit: bigit, carry': nat)
    requires Scaling(start, now, i, f, carry) && i < |start|
    requires start[i] * f + carry == digit + TWO32 * carry'
    ensures Scaling(start, now[i := digit], i + 1, f, carry')
  {
    var next := now[i := digit];
    EvalTake(start, i);
    EvalTake(next, i);
    assert next[..i] == now[..i];
    CarryStep(Eval(start[..i]), Eval(now[..i]), Pow(TWO32, i), start[i], f, carry, digit, carry');
  }

  lemma MultiplyStep(start: seq<bigit>, now: seq<bigit>, i: nat, value: uint32, carry: bigit)
    requires Scaling(start, now, i, value, carry) && i < |start|
    ensures var result := now[i] * value + carry;
      && 0 <= result < TWO32 * TWO32 && result / TWO32 < TWO32
      && Scaling(start, now[i := result % TWO32], i + 1, value, result / TWO32)
  {
    ProductFits(now[i], value, carry, 0);
    var result := now[i] * value + carry;
    ScalingStep(start, now, i, value, carry, result % TWO32, result / TWO32);
  }

  // The same with a 64-bit factor lower + TWO32 * upper and a double bigit as carry.
  lemma WideStep(start: seq<bigit>, now: seq<bigit>, i: nat, lower: uint32, upper: uint32, carry: uint64)
    requires Scaling(start, now, i, lower + TWO32 * upper, carry) && i < |start|
    ensures var result := now[i] * lower + carry % TWO32;
      var more := now[i] * upper + result / TWO32 + carry / TWO32;
      && 0 <= result < TWO32 * TWO32 && 0 <= more < TWO32 * TWO32
      && Scaling(start, now[i := result % TWO32], i + 1, lower + TWO32 * upper, more)
  {
    var b := now[i];
    ProductFits(b, lower, carry % TWO32, 0);
    var result := b * lower + carry % TWO32;
    ProductFits(b, upper, result / TWO32, carry / TWO32);
    assert b * (lower + TWO32 * upper) == b * lower + TWO32 * (b * upper);
    ScalingStep(start, now, i, lower + TWO32 * upper, carry,
                result % TWO32, b * upper + result / TWO32 + carry / TWO32);
  }

  // At the end the last carry, if any, becomes the top bigit.
  function WithCarry(now: seq<bigit>, carry: bigit): seq<bigit> {
    if carry != 0 then now + [carry] else now
  }

  lemma ScalingEnds(start: seq<bigit>, now: seq<bigit>, f: nat, carry: bigit)
    requires Scaling(start, now, |start|, f, carry)
    ensures Eval(WithCarry(now, carry)) == Eval(start) * f
    ensures f > 0 && |start| > 0 && start[|start| - 1] != 0 ==>
      |now| > 0 && WithCarry(now, carry)[|WithCarry(now, carry)| - 1] != 0
  {
    WholeScaled(start, now, f, carry);
    if carry != 0 {
      EvalAppend(now, carry);
    } else {
      TopStays(start, now, f);
    }
  }

  lemma NothingCarried(v: nat, p: nat, carry: nat)
    ensures carry == 0 ==> v + p * carry == v
  {
  }

  lemma WholeScaled(start: seq<bigit>, now: seq<bigit>, f: nat, carry: nat)
    requires Scaling(start, now, |start|, f, carry)
    ensures |now| == |start| && Eval(now) + Pow(TWO32, |now|) * carry == Eval(start) * f
    ensures carry == 0 ==> Eval(now) == Eval(start) * f
  {
    assert now[..|start|] == now && start[..|start|] == start;
    NothingCarried(Eval(now), Pow(TWO32, |now|), carry);
  }

  lemma TopStays(start: seq<bigit>, now: seq<bigit>, f: nat)
    requires |start| == |now| && Eval(now) == Eval(start) * f
    ensures f > 0 && |start| > 0 && start[|start| - 1] != 0 ==> now[|now| - 1] != 0
  {
    if f > 0 && |start| > 0 && start[|start| - 1] != 0 {
      EvalAtLeast(start);
      MulAtLeast(Eval(start), f);
      TopDigit(now);
    }
  }

  lemma ProductFits(x: uint32, y: uint32, c: uint32, d: uint32)
    ensures x * y + c + d < TWO32 * TWO32
  {
    ProductAtMost(x, y);
  }

  lemma ProductAtMost(x: nat, y: nat)
    requires x < TWO32 && y < TWO32
    ensures x * y <= (TWO32 - 1) * (TWO32 - 1)
  {
    MulMonotone(x, TWO32 - 1, y);
    MulMonotone(y, TWO32 - 1, TWO32 - 1);
  }

  lemma TopDigit(s: seq<bigit>)
    requires |s| > 0 && Eval(s) >= Pow(TWO32, |s| - 1)
    ensures s[|s| - 1] != 0
  {
    var n := |s| - 1;
    EvalTake(s, n);
    assert s[..n + 1] == s;
    EvalBelow(s[..n]);
  }

  // ---- the columns of a product ----

  function At(s: seq<bigit>, i: int): bigit {
    if 0 <= i < |s| then s[i] else 0
  }

  // The sum of a[i] * b[j] over i + j == c.
  function Column(a: seq<bigit>, b: seq<bigit>, c: int): nat {
    if |a| == 0 then 0 else a[0] * At(b, c) + Column(a[1..], b, c - 1)
  }

  // The first k columns, each at its place.
  function Columns(a: seq<bigit>, b: seq<bigit>, k: nat): nat {
    if k == 0 then 0 else Columns(a, b, k - 1) + Column(a, b, k - 1) * Pow(TWO32, k - 1)
  }

  lemma {:induction false} ColumnBeforeStart(a: seq<bigit>, b: seq<bigit>, c: int)
    requires c < 0
    ensures Column(a, b, c) == 0
  {
    if |a| > 0 {
      ColumnBeforeStart(a[1..], b, c - 1);
    }
  }

  // Taking the first digit of a out of the columns.
  lemma {:induction false} ColumnsFirst(a: seq<bigit>, b: seq<bigit>, k: nat)
    requires |a| > 0 && k > 0
    ensures Columns(a, b, k) == a[0] * Eval(Padded(b, k)) + TWO32 * Columns(a[1..], b, k - 1)
  {
    if k == 1 {
      ColumnBeforeStart(a[1..], b, -1);
      assert Padded(b, 1) == [At(b, 0)];
      assert Eval([At(b, 0)]) == At(b, 0);
      assert Pow(TWO32, 0) == 1;
    } else {
      ColumnsFirst(a, b, k - 1);
      assert Padded(b, k) == Padded(b, k - 1) + [At(b, k - 1)];
      EvalAppend(Padded(b, k - 1), At(b, k - 1));
      ColumnShuffle(a[0], Eval(Padded(b, k - 1)), At(b, k - 1), Pow(TWO32, k - 2),
                    Column(a[1..], b, k - 2), Columns(a[1..], b, k - 2));
    }
  }

  lemma ColumnShuffle(x: nat, e: nat, y: nat, p: nat, c: nat, cs: nat)
    ensures (x * e + TWO32 * cs) + (x * y + c) * (TWO32 * p) == x * (e + (TWO32 * p) * y) + TWO32 * (cs + c * p)
  {
    assert (x * y + c) * (TWO32 * p) == (x * y) * (TWO32 * p) + c * (TWO32 * p);
    assert x * ((TWO32 * p) * y) == (x * y) * (TWO32 * p);
    assert c * (TWO32 * p) == TWO32 * (c * p);
    assert x * (e + (TWO32 * p) * y) == x * e + x * ((TWO32 * p) * y);
    assert TWO32 * (cs + c * p) == TWO32 * cs + TWO32 * (c * p);
  }

  function Padded(b: seq<bigit>, k: nat): (s: seq<bigit>)
    ensures |s| == k && forall i :: 0 <= i < k ==> s[i] == At(b, i)
  {
    seq(k, i => At(b, i))
  }

  lemma PaddedValue(b: seq<bigit>, k: nat)
    requires k >= |b|
    ensures Eval(Padded(b, k)) == Eval(b)
  {
    assert Padded(b, k) == b + Zeros(k - |b|);
    EvalConcat(b, Zeros(k - |b|));
    EvalZeros(k - |b|);
    assert Pow(TWO32, |b|) * 0 == 0;
  }

  // Enough columns make the whole product.
  lemma {:induction false} ColumnsAreProduct(a: seq<bigit>, b: seq<bigit>, k: nat)
    requires k >= |a| + |b|
    ensures Columns(a, b, k) == Eval(a) * Eval(b)
    decreases |a|
  {
    if |a| == 0 {
      NoColumns(b, k);
    } else {
      ColumnsFirst(a, b, k);
      PaddedValue(b, k);
      ColumnsAreProduct(a[1..], b, k - 1);
      ProductShuffle(a[0], Eval(a[1..]), Eval(b));
    }
  }

  lemma ProductShuffle(x: nat, e: nat, y: nat)
    ensures x * y + TWO32 * (e * y) == (x + TWO32 * e) * y
  {
    assert TWO32 * (e * y) == (TWO32 * e) * y;
  }

  lemma {:induction false} NoColumns(b: seq<bigit>, k: nat)
    ensures Columns([], b, k) == 0
  {
    if k > 0 {
      NoColumns(b, k - 1);
      assert 0 * Pow(TWO32, k - 1) == 0;
    }
  }

  // ---- one column, term by term ----

  // Dropping the terms a[..i] whose partner is beyond the end of b.
  lemma {:induction false} ColumnSkips(a: seq<bigit>, b: seq<bigit>, c: int, i: nat)
    requires i <= |a| && c - i + 1 >= |b|
    ensures Column(a, b, c) == Column(a[i..], b, c - i)
  {
    if i == 0 {
      assert a[0..] == a;
    } else {
      ColumnSkips(a[1..], b, c - 1, i - 1);
      assert a[1..][i - 1..] == a[i..];
      assert a[0] * 0 == 0;
    }
  }

  lemma ColumnNext(a: seq<bigit>, b: seq<bigit>, i: nat, j: int)
    requires i < |a| && 0 <= j < |b|
    ensures Column(a[i..], b, j) == a[i] * b[j] + Column(a[i + 1..], b, j - 1)
  {
    assert a[i..][1..] == a[i + 1..];
  }

  lemma {:induction false} ColumnAtMost(a: seq<bigit>, b: seq<bigit>, c: int)
    ensures Column(a, b, c) <= |a| * ((TWO32 - 1) * (TWO32 - 1))
  {
    if |a| > 0 {
      ColumnAtMost(a[1..], b, c - 1);
      ProductAtMost(a[0], At(b, c));
      assert |a| * ((TWO32 - 1) * (TWO32 - 1)) == (|a| - 1) * ((TWO32 - 1) * (TWO32 - 1)) + (TWO32 - 1) * (TWO32 - 1);
    } else {
      assert 0 * ((TWO32 - 1) * (TWO32 - 1)) == 0;
    }
  }

  // A carry into the next column stays below |a| * TWO32.
  lemma CarryAtMost(n: nat, column: nat, carry: nat)
    requires column <= n * ((TWO32 - 1) * (TWO32 - 1)) && carry <= n * TWO32
    ensures carry + column <= n * (TWO32 * TWO32)
    ensures (carry + column) / TWO32 <= n * TWO32
  {
    assert n * TWO32 + n * ((TWO32 - 1) * (TWO32 - 1)) == n * (TWO32 + (TWO32 - 1) * (TWO32 - 1));
    assert n * (TWO32 + (TWO32 - 1) * (TWO32 - 1)) <= n * (TWO32 * TWO32);
    assert n * (TWO32 * TWO32) == (n * TWO32) * TWO32;
    DivAtMost(carry + column, n * TWO32);
  }

  lemma DivAtMost(x: nat, y: nat)
    requires x <= y * TWO32
    ensures x / TWO32 <= y
  {
  }

  lemma ColumnStep(out: nat, columns: nat, carry: nat, column: nat, p: nat, sum: nat)
    requires out + carry * p == columns && sum == carry + column
    ensures (out + p * (sum % TWO32)) + (sum / TWO32) * (TWO32 * p) == columns + column * p
  {
    var d, q := sum % TWO32, sum / TWO32;
    assert sum == d + TWO32 * q;
    assert p * sum == p * d + p * (TWO32 * q);
    assert p * (TWO32 * q) == q * (TWO32 * p);
    assert p * sum == carry * p + column * p;
  }

  // The bigits below k of a square are written; `carry` goes into column k.
  ghost predicate Squaring(n: seq<bigit>, now: seq<bigit>, k: nat, carry: nat) {
    && k <= |now| == 2 * |n|
    && Eval(now[..k]) + carry * Pow(TWO32, k) == Columns(n, n, k)
    && carry <= |n| * TWO32
  }

  lemma SquaringStep(n: seq<bigit>, now: seq<bigit>, k: nat, carry: nat, sum: nat)
    requires Squaring(n, now, k, carry) && k < |now| && sum == carry + Column(n, n, k)
    ensures Squaring(n, now[k := sum % TWO32], k + 1, sum / TWO32)
  {
    var next := now[k := sum % TWO32];
    EvalTake(next, k);
    assert next[..k] == now[..k];
    ColumnAtMost(n, n, k);
    CarryAtMost(|n|, Column(n, n, k), carry);
    ColumnStep(Eval(now[..k]), Columns(n, n, k), carry, Column(n, n, k), Pow(TWO32, k), sum);
  }

  // A column with its carry fits the 128-bit sum.
  lemma ColumnFits(n: seq<bigit>, now: seq<bigit>, k: nat, carry: nat)
    requires Squaring(n, now, k, carry) && |n| < 0x4000_0000
    ensures carry + Column(n, n, k) < 0x4000_0000 * (TWO32 * TWO32)
  {
    ColumnAtMost(n, n, k);
    CarryAtMost(|n|, Column(n, n, k), carry);
    MulMonotone(|n| + 1, 0x4000_0000, TWO32 * TWO32);
  }

  lemma {:induction false} SquaringEnds(n: seq<bigit>, now: seq<bigit>, carry: nat)
    requires Squaring(n, now, 2 * |n|, carry)
    ensures Eval(now) == Eval(n) * Eval(n)
  {
    assert now[..2 * |n|] == now;
    ColumnsAreProduct(n, n, 2 * |n|);
    EvalBelow(n);
    PowAdd(TWO32, |n|, |n|);
    assert |n| + |n| == 2 * |n|;
    SquareBelow(Eval(n), Pow(TWO32, |n|));
    NoCarryLeft(Eval(now), carry, Pow(TWO32, 2 * |n|), Eval(n) * Eval(n));
  }

  lemma NoCarryLeft(out: nat, carry: nat, p: nat, total: nat)
    requires out + carry * p == total < p
    ensures out == total
  {
    if carry > 0 {
      MulAtLeast(p, carry);
    }
  }

  lemma SquareBelow(e: nat, p: nat)
    requires e < p
    ensures e * e < p * p
  {
    MulMonotone(e + 1, p, e + 1);
    MulMonotone(e + 1, p, p);
  }

  // ---- subtraction ----

  // The first j bigits of `other` are subtracted from position `off` on, up to a borrow.
  ghost predicate Subtracting(start: seq<bigit>, now: seq<bigit>, other: seq<bigit>, off: nat, j: nat, borrow: nat) {
    && j <= |other| && off + j <= |start| == |now| && borrow <= 1
    && (forall k :: off + j <= k < |now| ==> now[k] == start[k])
    && Eval(now[..off + j]) + Pow(TWO32, off) * Eval(other[..j])
      == Eval(start[..off + j]) + borrow * Pow(TWO32, off + j)
  }

  lemma SubtractingStarts(start: seq<bigit>, other: seq<bigit>, off: nat)
    requires off <= |start|
    ensures Subtracting(start, start, other, off, 0, 0)
  {
    assert Eval(other[..0]) == 0;
  }

  lemma SubtractingStep(start: seq<bigit>, now: seq<bigit>, other: seq<bigit>, off: nat, j: nat,
                        borrow: nat, digit: bigit, borrow': nat)
    requires Subtracting(start, now, other, off, j, borrow) && j < |other| && off + j < |start|
    requires borrow' <= 1 && digit - borrow' * TWO32 == start[off + j] - other[j] - borrow
    ensures Subtracting(start, now[off + j := digit], other, off, j + 1, borrow')
  {
    var i := off + j;
    var next := now[i := digit];
    EvalTake(start, i);
    EvalTake(next, i);
    EvalTake(other, j);
    assert next[..i] == now[..i];
    PowAdd(TWO32, off, j);
    BorrowStep(Eval(now[..i]), Eval(start[..i]), Eval(other[..j]), Pow(TWO32, off), Pow(TWO32, j), Pow(TWO32, i),
               digit, start[i], other[j], borrow, borrow');
  }

  lemma BorrowStep(now: nat, start: nat, other: nat, po: nat, pj: nat, p: nat,
                   d: nat, s: nat, o: nat, borrow: nat, borrow': nat)
    requires p == po * pj && now + po * other == start + borrow * p
    requires d - borrow' * TWO32 == s - o - borrow
    ensures (now + p * d) + po * (other + pj * o) == (start + p * s) + borrow' * (TWO32 * p)
  {
    assert po * (other + pj * o) == po * other + p * o by { assert po * (pj * o) == p * o; }
    assert p * (d - borrow' * TWO32) == p * (s - o - borrow);
    assert p * (d - borrow' * TWO32) == p * d - borrow' * (TWO32 * p);
    assert p * (s - o - borrow) == p * s - p * o - borrow * p;
  }

  lemma SubtractingEnds(start: seq<bigit>, now: seq<bigit>, other: seq<bigit>, off: nat, borrow: nat)
    requires Subtracting(start, now, other, off, |other|, borrow)
    ensures var i := off + |other|;
      && Eval(now) + Pow(TWO32, off) * Eval(other) == Eval(start) + (if borrow == 0 then 0 else Pow(TWO32, i))
      && (borrow == 0 <==> Eval(start[..i]) >= Pow(TWO32, off) * Eval(other))
  {
    var i := off + |other|;
    assert other[..|other|] == other;
    EvalSplit(now, i);
    EvalSplit(start, i);
    assert now[i..] == start[i..];
    EvalBelow(now[..i]);
  }

  lemma EvalFrom(s: seq<bigit>, i: nat)
    requires i < |s|
    ensures Eval(s[i..]) == s[i] + TWO32 * Eval(s[i + 1..])
  {
    assert s[i..][1..] == s[i + 1..];
  }

  lemma ReplaceBigit(s: seq<bigit>, i: nat, d: bigit)
    requires i < |s|
    ensures Eval(s[i := d]) == Eval(s) + Pow(TWO32, i) * (d - s[i])
  {
    var t := s[i := d];
    EvalSplit(s, i);
    EvalSplit(t, i);
    EvalFrom(s, i);
    EvalFrom(t, i);
    assert t[..i] == s[..i] && t[i + 1..] == s[i + 1..];
    MulDifference(Pow(TWO32, i), Eval(t[i..]), Eval(s[i..]));
  }

  lemma MulDifference(p: nat, x: nat, y: nat)
    ensures p * x == p * y + p * (x - y)
  {
  }
}
