// The difficulty and target codec of helper.js: a target is (2^64 - 1) / difficulty as
// little-endian hexadecimal text, without the low half when that is zero.

module Target {
  import opened Numbers
  import opened Strings
  import opened Words

  const MAX64: nat := 0xFFFF_FFFF_FFFF_FFFF
  const ZEROS8 := "00000000"

  // match(/.{2}/g).reverse().join(""), for text without line ends.
  function ReversePairs(s: string): (r: string)
    ensures |r| == |s| / 2 * 2
    ensures forall i :: 0 <= i < |r| ==> r[i] in s
  {
    if |s| < 2 then "" else ReversePairs(s[2..]) + s[..2]
  }

  // A difficulty comes as a BigInt or as a Number; only the BigInt zero is caught before the
  // division, which throws for the other.
  function Diff2Target(diff: nat, isBigInt: bool): Option<string> {
    if diff == 0 then
      if isBigInt then Some("0000000000000000") else None
    else
      var hexLE := PadStart(Hex(MAX64 / diff), 16);
      var hexBE := ReversePairs(hexLE);
      Some(if ZEROS8 <= hexBE then hexBE[8..] else hexBE)
  }

  // The difficulty of a target, zero for the target zero.
  function Quotient(div: nat): nat {
    if div == 0 then 0 else MAX64 / div
  }

  // The half that is left out of a text of eight digits.
  function Restored(text: string): string {
    if |text| == 8 then ZEROS8 + text else text
  }

  // None where the text has no pair to match or is not hexadecimal, and BigInt throws.
  function Target2Diff(text: string): Option<nat> {
    var hex := ReversePairs(Restored(text));
    if |hex| == 0 || !AllHex(hex) then None
    else
      Some(Quotient(ParseHex(hex)))
  }

  // ---- the text ----

  lemma {:induction false} ReverseConcat(a: string, b: string)
    requires |a| % 2 == 0
    ensures ReversePairs(a + b) == ReversePairs(b) + ReversePairs(a)
    decreases |a|
  {
    if |a| == 0 {
      assert a + b == b;
    } else {
      assert (a + b)[2..] == a[2..] + b && (a + b)[..2] == a[..2];
      ReverseConcat(a[2..], b);
    }
  }

  lemma {:induction false} ReverseTwice(s: string)
    requires |s| % 2 == 0
    ensures ReversePairs(ReversePairs(s)) == s
    decreases |s|
  {
    if |s| > 0 {
      ReverseTwice(s[2..]);
      ReverseConcat(ReversePairs(s[2..]), s[..2]);
      assert s[..2][2..] == "" && ReversePairs("") == "" && s[..2][..2] == s[..2];
      assert ReversePairs(s[..2]) == s[..2];
    }
  }

  lemma SixteenTo16()
    ensures Pow(16, 16) == MAX64 + 1
  {
    PowAdd(16, 8, 8);
    PowAdd(16, 4, 4);
    assert Pow(16, 4) == 0x1_0000;
  }

  // 16 digits, which parse back.
  lemma Digits16(div: nat)
    requires div <= MAX64
    ensures var hex := PadStart(Hex(div), 16);
      && |hex| == 16 && AllHex(hex) && AllLowerHex(hex)
      && ParseHex(hex) == div
  {
    SixteenTo16();
    HexLength(div, 16);
    var zeros := seq(16 - |Hex(div)|, _ => '0');
    if |Hex(div)| < 16 {
      ParseZeros(zeros, Hex(div));
    }
    ParseHexPrinted(div);
  }

  // The stripped half is put back, and the bytes turned round again.
  lemma TextParsesBack(hexLE: string, text: string)
    requires |hexLE| == 16 && AllHex(hexLE)
    requires text == if ZEROS8 <= ReversePairs(hexLE) then ReversePairs(hexLE)[8..] else ReversePairs(hexLE)
    ensures ReversePairs(Restored(text)) == hexLE
  {
    var hexBE := ReversePairs(hexLE);
    if ZEROS8 <= hexBE {
      assert ZEROS8 + hexBE[8..] == hexBE;
    }
    ReverseTwice(hexLE);
  }

  // The target a miner reads is the 64-bit target that was written.
  lemma TargetReadsBack(diff: nat, isBigInt: bool)
    requires diff > 0
    ensures Diff2Target(diff, isBigInt).Some?
    ensures Target2Diff(Diff2Target(diff, isBigInt).value)
      == Some(if MAX64 / diff == 0 then 0 else MAX64 / (MAX64 / diff))
  {
    QuotientBound(diff);
    Digits16(MAX64 / diff);
    TextParsesBack(PadStart(Hex(MAX64 / diff), 16), Diff2Target(diff, isBigInt).value);
  }

  lemma QuotientBound(diff: nat)
    requires diff > 0
    ensures MAX64 / diff <= MAX64
  {
  }

  // ---- the bytes of the text ----

  // The number whose bytes are the pairs of hexadecimal digits, the first pair lowest.
  function LittleEndian(s: string): nat
    requires AllHex(s)
  {
    if |s| < 2 then 0 else ParseHex(s[..2]) + 256 * LittleEndian(s[2..])
  }

  lemma PairValue(s: string)
    requires AllHex(s) && |s| == 2
    ensures ParseHex(s) == 16 * HexOf(s[0]) + HexOf(s[1]) < 256
  {
    assert s[..1][..0] == "" && s[..1] == [s[0]];
    assert ParseHex(s[..1]) == 16 * ParseHex("") + HexOf(s[0]);
  }

  lemma ParseAppendPair(a: string, b: string)
    requires AllHex(a) && AllHex(b) && |b| == 2
    ensures AllHex(a + b) && ParseHex(a + b) == 256 * ParseHex(a) + ParseHex(b)
  {
    PairValue(b);
    var s := a + b;
    assert s[..|s| - 1] == a + [b[0]] && (a + [b[0]])[..|a|] == a;
    assert ParseHex(a + [b[0]]) == 16 * ParseHex(a) + HexOf(b[0]);
  }

  // Reading the pairs back to front reads the number they are the bytes of.
  lemma {:induction false} ReversedIsLittleEndian(s: string)
    requires AllHex(s)
    ensures AllHex(ReversePairs(s)) && ParseHex(ReversePairs(s)) == LittleEndian(s)
  {
    if |s| >= 2 {
      ReversedIsLittleEndian(s[2..]);
      ParseAppendPair(ReversePairs(s[2..]), s[..2]);
    }
  }

  // Pair k is byte k.
  lemma {:induction false} BytesOfPairs(s: string, k: nat)
    requires AllHex(s) && 2 * k + 2 <= |s|
    ensures Pow(256, k) > 0 && ParseHex(s[2 * k..2 * k + 2]) == LittleEndian(s) / Pow(256, k) % 256
    decreases k
  {
    PowPositive(256, k);
    PairValue(s[..2]);
    var low, rest := ParseHex(s[..2]), LittleEndian(s[2..]);
    if k == 0 {
      LowByte(low, rest);
    } else {
      BytesOfPairs(s[2..], k - 1);
      assert s[2..][2 * (k - 1)..2 * (k - 1) + 2] == s[2 * k..2 * k + 2];
      HigherByte(low, rest, Pow(256, k - 1));
      assert LittleEndian(s) / Pow(256, k) == rest / Pow(256, k - 1);
    }
  }

  lemma LowByte(low: nat, rest: nat)
    requires low < 256
    ensures (low + 256 * rest) / 1 % 256 == low
  {
  }

  lemma HigherByte(low: nat, rest: nat, p: nat)
    requires low < 256 && p > 0
    ensures (low + 256 * rest) / (256 * p) == rest / p
  {
    var q, r := rest / p, rest % p;
    assert rest == p * q + r;
    MulAssociates(q, 256, p);
    DivisionIs(low + 256 * rest, 256 * p, q, 256 * r + low);
  }

  // The text of a difficulty: the eight bytes of the quotient, lowest first, as pairs of lower
  // case digits, without the first four when they are zero.
  lemma TextIsBytes(diff: nat, isBigInt: bool)
    requires diff > 0
    ensures var text, q := Diff2Target(diff, isBigInt).value, MAX64 / diff;
      && AllHex(Restored(text)) && AllLowerHex(text) && LittleEndian(Restored(text)) == q
      && |text| == (if q % TWO32 == 0 then 8 else 16) && |Restored(text)| == 16
      && forall k :: 0 <= k < 8 ==>
        Pow(256, k) > 0 && ParseHex(Restored(text)[2 * k..2 * k + 2]) == q / Pow(256, k) % 256
  {
    var text := Diff2Target(diff, isBigInt).value;
    QuotientBound(diff);
    Digits16(MAX64 / diff);
    BytesWritten(MAX64 / diff, PadStart(Hex(MAX64 / diff), 16), text);
    LowerKept(text);
    BytesOfText(Restored(text));
  }

  lemma BytesOfText(s: string)
    requires AllHex(s) && |s| == 16
    ensures forall k :: 0 <= k < 8 ==>
      Pow(256, k) > 0 && ParseHex(s[2 * k..2 * k + 2]) == LittleEndian(s) / Pow(256, k) % 256
  {
    forall k | 0 <= k < 8
      ensures Pow(256, k) > 0 && ParseHex(s[2 * k..2 * k + 2]) == LittleEndian(s) / Pow(256, k) % 256
    {
      BytesOfPairs(s, k);
    }
  }

  lemma BytesWritten(q: nat, hexLE: string, text: string)
    requires |hexLE| == 16 && AllHex(hexLE) && AllLowerHex(hexLE) && ParseHex(hexLE) == q
    requires text == if ZEROS8 <= ReversePairs(hexLE) then ReversePairs(hexLE)[8..] else ReversePairs(hexLE)
    ensures AllHex(Restored(text)) && AllLowerHex(Restored(text)) && LittleEndian(Restored(text)) == q
    ensures |Restored(text)| == 16 && |text| == if q % TWO32 == 0 then 8 else 16
  {
    var full := Restored(text);
    RestoredIsReversed(hexLE, text);
    ReversedIsHex(hexLE);
    ReverseTwice(hexLE);
    ReversedIsLittleEndian(full);
    LowHalfIsZero(full);
  }

  lemma LowerKept(text: string)
    requires AllLowerHex(Restored(text))
    ensures AllLowerHex(text)
  {
    if |text| == 8 {
      forall i | 0 <= i < 8
        ensures '0' <= text[i] <= '9' || 'a' <= text[i] <= 'f'
      {
        assert Restored(text)[8 + i] == text[i];
      }
    }
  }

  lemma {:induction false} ReversedIsHex(s: string)
    requires AllHex(s) && AllLowerHex(s)
    ensures AllHex(ReversePairs(s)) && AllLowerHex(ReversePairs(s))
  {
    if |s| >= 2 {
      ReversedIsHex(s[2..]);
    }
  }

  lemma RestoredIsReversed(hexLE: string, text: string)
    requires |hexLE| == 16
    requires text == if ZEROS8 <= ReversePairs(hexLE) then ReversePairs(hexLE)[8..] else ReversePairs(hexLE)
    ensures Restored(text) == ReversePairs(hexLE)
    ensures |text| == if ZEROS8 <= Restored(text) then 8 else 16
  {
    var hexBE := ReversePairs(hexLE);
    if ZEROS8 <= hexBE {
      assert ZEROS8 + hexBE[8..] == hexBE;
    }
  }

  // The first k pairs are the k lowest bytes.
  lemma {:induction false} SplitPairs(s: string, k: nat)
    requires AllHex(s) && 2 * k <= |s|
    ensures LittleEndian(s) == LittleEndian(s[..2 * k]) + Pow(256, k) * LittleEndian(s[2 * k..])
    ensures LittleEndian(s[..2 * k]) < Pow(256, k)
    decreases k
  {
    if k == 0 {
      assert s[0..] == s;
    } else {
      SplitPairs(s[2..], k - 1);
      PairValue(s[..2]);
      assert s[..2 * k][..2] == s[..2] && s[..2 * k][2..] == s[2..][..2 * (k - 1)];
      assert s[2..][2 * (k - 1)..] == s[2 * k..];
      MulAssociates(256, Pow(256, k - 1), LittleEndian(s[2 * k..]));
    }
  }

  lemma {:induction false} ZeroText(s: string)
    requires AllHex(s) && |s| % 2 == 0
    ensures LittleEndian(s) == 0 <==> AllZero(s)
    decreases |s|
  {
    if |s| > 0 {
      PairValue(s[..2]);
      ZeroText(s[2..]);
      ZeroParts(s);
    }
  }

  predicate AllZero(s: string) {
    forall i :: 0 <= i < |s| ==> s[i] == '0'
  }

  lemma ZeroParts(s: string)
    requires |s| >= 2
    ensures AllZero(s) <==> s[0] == s[1] == '0' && AllZero(s[2..])
  {
    if AllZero(s[2..]) {
      forall i | 2 <= i < |s|
        ensures s[i] == '0'
      {
        assert s[i] == s[2..][i - 2];
      }
    }
  }

  lemma FourBytes()
    ensures Pow(256, 4) == TWO32
  {
    assert Pow(256, 2) == 0x1_0000;
    PowAdd(256, 2, 2);
  }

  // The first four pairs are zeros exactly when the low half of the number is.
  lemma LowHalfIsZero(s: string)
    requires AllHex(s) && |s| >= 8
    ensures ZEROS8 <= s <==> LittleEndian(s) % TWO32 == 0
  {
    var low, high := s[..8], s[8..];
    SplitPairs(s, 4);
    FourBytes();
    LowPart(LittleEndian(s), LittleEndian(low), LittleEndian(high));
    ZeroText(low);
    SameZeros(low);
    assert ZEROS8 <= s <==> low == ZEROS8;
  }

  lemma LowPart(v: nat, low: nat, high: nat)
    requires v == low + TWO32 * high && low < TWO32
    ensures v % TWO32 == 0 <==> low == 0
  {
    DivisionIs(v, TWO32, high, low);
  }

  lemma SameZeros(s: string)
    requires |s| == 8
    ensures AllZero(s) <==> s == ZEROS8
  {
  }

  // The difficulty of any text of hexadecimal digits: the quotient by the number whose bytes
  // its pairs are. The pairs of a text of eight digits are the upper four bytes.
  lemma DifficultyOfBytes(text: string)
    requires AllHex(text) && |text| >= 2
    ensures var d := if |text| == 8 then TWO32 * LittleEndian(text) else LittleEndian(text);
      Target2Diff(text) == Some(if d == 0 then 0 else MAX64 / d)
  {
    if |text| == 8 {
      UpperBytes(text);
    }
    ReversedIsLittleEndian(Restored(text));
  }

  lemma UpperBytes(text: string)
    requires AllHex(text)
    ensures AllHex(ZEROS8 + text) && LittleEndian(ZEROS8 + text) == TWO32 * LittleEndian(text)
  {
    var target := ZEROS8 + text;
    SplitPairs(target, 4);
    FourBytes();
    assert target[..2 * 4] == ZEROS8 && target[2 * 4..] == text;
    SameZeros(ZEROS8);
    ZeroText(ZEROS8);
  }

  // Any other text has no pair of digits or a character that is none.
  lemma NoDifficulty(text: string)
    ensures Target2Diff(text) == None <==> |text| < 2 || !AllHex(text[..|text| / 2 * 2])
  {
    PairsKept(Restored(text));
    if |text| == 8 {
      HexOfParts(ZEROS8, text);
      assert text[..8] == text && Restored(text)[..16] == ZEROS8 + text;
    }
  }

  lemma {:induction false} PairsKept(s: string)
    ensures AllHex(ReversePairs(s)) <==> AllHex(s[..|s| / 2 * 2])
  {
    if |s| >= 2 {
      PairsKept(s[2..]);
      var paired := s[..|s| / 2 * 2];
      assert paired == s[..2] + s[2..][..|s[2..]| / 2 * 2];
      HexOfParts(ReversePairs(s[2..]), s[..2]);
      HexOfParts(s[..2], s[2..][..|s[2..]| / 2 * 2]);
    }
  }

  lemma HexOfParts(a: string, b: string)
    ensures AllHex(a + b) <==> AllHex(a) && AllHex(b)
  {
    if AllHex(a + b) {
      forall i | 0 <= i < |a|
        ensures IsHex(a[i])
      {
        assert (a + b)[i] == a[i];
      }
      forall i | 0 <= i < |b|
        ensures IsHex(b[i])
      {
        assert (a + b)[|a| + i] == b[i];
      }
    }
  }

  // ---- the difficulty ----

  lemma QuotientTwice(m: nat, d: nat)
    requires 0 < d <= m
    ensures m / d > 0 && m / (m / d) >= d
    ensures m / (m / d) == d <==> m % d < m / d
  {
    var q, r := m / d, m % d;
    QuotientPositive(m, d);
    assert m == q * d + r;
    if r < q {
      assert m == d * q + r;
      DivisionIs(m, q, d, r);
    } else {
      QuotientPositive(r, q);
      MoreThan(m, d, q, r, r / q, r % q);
    }
  }

  lemma MoreThan(m: nat, d: nat, q: nat, r: nat, more: nat, rest: nat)
    requires m == q * d + r && r == q * more + rest && rest < q && more > 0
    ensures m / q > d
  {
    assert (d + more) * q == q * d + q * more;
    DivisionIs(m, q, d + more, rest);
  }

  lemma QuotientPositive(m: nat, d: nat)
    requires 0 < d <= m
    ensures m / d > 0
  {
  }

  lemma SmallDifficulties(d: nat)
    requires 0 < d < TWO32
    ensures MAX64 % d < MAX64 / d
  {
  }

  // The difficulty comes back exactly, whenever the remainder of the division is below its
  // quotient, which it is for all 32-bit difficulties; otherwise it comes back larger. Above
  // 2^64 - 1 it comes back as zero.
  lemma RoundTrip(diff: nat, isBigInt: bool)
    requires diff > 0
    ensures var back := Target2Diff(Diff2Target(diff, isBigInt).value);
      && back.Some?
      && (diff <= MAX64 ==> back.value >= diff)
      && (diff <= MAX64 ==> (back.value == diff <==> MAX64 % diff < MAX64 / diff))
      && (diff < TWO32 ==> back.value == diff)
      && (diff > MAX64 ==> back.value == 0)
  {
    TargetReadsBack(diff, isBigInt);
    if diff <= MAX64 {
      QuotientTwice(MAX64, diff);
    } else {
      DivisionIs(MAX64, diff, 0, MAX64);
    }
    if diff < TWO32 {
      SmallDifficulties(diff);
    }
  }

  lemma ZeroTarget(s: string)
    requires |s| == 16 && forall i :: 0 <= i < 16 ==> s[i] == '0'
    ensures Target2Diff(s) == Some(0)
  {
    var hex := ReversePairs(s);
    assert hex + "" == hex;
    assert forall i :: 0 <= i < |hex| ==> hex[i] in s;
    ParseZeros(hex, "");
    assert ParseHex("") == 0;
    assert ParseHex(hex) == 0;
  }

  // No difficulty at all: a BigInt zero comes back as zero, a Number zero throws.
  lemma ZeroDifficulty()
    ensures Diff2Target(0, false) == None
    ensures Target2Diff(Diff2Target(0, true).value) == Some(0)
  {
    ZeroTarget("0000000000000000");
  }
}
