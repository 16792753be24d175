// The string operations of JavaScript that the source builds on: indexOf, split, decimal
// and hexadecimal numerals.

module Strings {
  import opened Numbers
  import opened Sequences

  datatype Option<+T> = None | Some(value: T)

  // ---- searching and splitting ----

  function IndexOf(s: string, c: char): (r: int)
    ensures -1 <= r < |s|
    ensures r >= 0 ==> s[r] == c && c !in s[..r]
    ensures r == -1 ==> c !in s
  {
    if |s| == 0 then -1
    else if s[0] == c then 0
    else
      var r := IndexOf(s[1..], c);
      if r < 0 then -1 else r + 1
  }

  function Split(s: string, c: char): (r: seq<string>)
    ensures |r| > 0
    decreases |s|
  {
    var p := IndexOf(s, c);
    if p < 0 then [s] else [s[..p]] + Split(s[p + 1..], c)
  }

  lemma IndexAfter(a: string, b: string, c: char)
    requires c !in a
    ensures IndexOf(a + [c] + b, c) == |a|
  {
    var s := a + [c] + b;
    assert s[|a|] == c && s[..|a|] == a;
  }

  // A separator splits the text before it from the text after it.
  lemma {:induction false} SplitAtSeparator(a: string, b: string, c: char)
    ensures Split(a + [c] + b, c) == Split(a, c) + Split(b, c)
    decreases |a|
  {
    var s := a + [c] + b;
    var p := IndexOf(a, c);
    if p < 0 {
      IndexAfter(a, b, c);
      assert s[..|a|] == a && s[|a| + 1..] == b;
    } else {
      assert a == a[..p] + [c] + a[p + 1..];
      assert s == a[..p] + [c] + (a[p + 1..] + [c] + b);
      IndexAfter(a[..p], a[p + 1..] + [c] + b, c);
      assert s[..p] == a[..p] && s[p + 1..] == a[p + 1..] + [c] + b;
      SplitAtSeparator(a[p + 1..], b, c);
      assert [a[..p]] + (Split(a[p + 1..], c) + Split(b, c)) == ([a[..p]] + Split(a[p + 1..], c)) + Split(b, c);
    }
  }

  // Text added at the end only touches the last piece.
  lemma {:induction false} SplitAppend(a: string, b: string, c: char)
    ensures Split(a + b, c) == Front(Split(a, c)) + Split(Last(Split(a, c)) + b, c)
    decreases |a|
  {
    var p := IndexOf(a, c);
    if p < 0 {
      assert Split(a, c) == [a];
    } else {
      var rest := a[p + 1..];
      assert a + b == a[..p] + [c] + (rest + b);
      IndexAfter(a[..p], rest + b, c);
      assert (a + b)[..p] == a[..p] && (a + b)[p + 1..] == rest + b;
      SplitAppend(rest, b, c);
      FrontOfCons(a[..p], Split(rest, c), Split(Last(Split(rest, c)) + b, c));
    }
  }

  // ---- numerals ----

  predicate IsDigit(c: char) {
    '0' <= c <= '9'
  }

  function DigitChar(d: nat): (c: char)
    requires d < 10
    ensures IsDigit(c) && DigitOf(c) == d
  {
    '0' + d as char
  }

  function DigitOf(c: char): (d: nat)
    requires IsDigit(c)
    ensures d < 10
  {
    (c - '0') as nat
  }

  // std::to_string of an unsigned number.
  function Decimal(n: nat): (s: string)
    ensures |s| > 0 && forall i :: 0 <= i < |s| ==> IsDigit(s[i])
  {
    if n < 10 then [DigitChar(n)] else Decimal(n / 10) + [DigitChar(n % 10)]
  }

  // parseInt of a text of digits.
  function ParseDecimal(s: string): nat
    requires forall i :: 0 <= i < |s| ==> IsDigit(s[i])
  {
    if |s| == 0 then 0 else 10 * ParseDecimal(s[..|s| - 1]) + DigitOf(s[|s| - 1])
  }

  lemma {:induction false} ParsePrinted(n: nat)
    ensures ParseDecimal(Decimal(n)) == n
  {
    if n < 10 {
      assert ParseDecimal(Decimal(n)[..0]) == 0;
    } else {
      ParsePrinted(n / 10);
      assert Decimal(n)[..|Decimal(n)| - 1] == Decimal(n / 10);
    }
  }

  // Digit k from the right stands for its multiple of 10^k.
  lemma {:induction false} DecimalPlace(s: string, k: nat)
    requires (forall i :: 0 <= i < |s| ==> IsDigit(s[i])) && k < |s|
    ensures Pow(10, k) > 0 && ParseDecimal(s) / Pow(10, k) % 10 == DigitOf(s[|s| - 1 - k])
    decreases k
  {
    PowPositive(10, k);
    var last := DigitOf(s[|s| - 1]);
    var n := ParseDecimal(s[..|s| - 1]);
    if k == 0 {
      LastDigit(n, last);
    } else {
      DecimalPlace(s[..|s| - 1], k - 1);
      DropLastDigit(n, last, Pow(10, k - 1));
      assert ParseDecimal(s) / Pow(10, k) == n / Pow(10, k - 1);
    }
  }

  lemma LastDigit(n: nat, last: nat)
    requires last < 10
    ensures (10 * n + last) / 1 % 10 == last
  {
  }

  lemma DropLastDigit(n: nat, last: nat, p: nat)
    requires last < 10 && p > 0
    ensures (10 * n + last) / (10 * p) == n / p
  {
    var q, r := n / p, n % p;
    assert n == p * q + r;
    MulAssociates(q, 10, p);
    DivisionIs(10 * n + last, 10 * p, q, 10 * r + last);
  }

  // No zeros are printed in front.
  lemma {:induction false} DecimalStarts(n: nat)
    ensures Decimal(n)[0] == '0' <==> n == 0
  {
    if n >= 10 {
      DecimalStarts(n / 10);
    }
  }

  predicate IsHex(c: char) {
    '0' <= c <= '9' || 'a' <= c <= 'f' || 'A' <= c <= 'F'
  }

  function HexChar(d: nat): (c: char)
    requires d < 16
    ensures IsHex(c) && HexOf(c) == d && ('0' <= c <= '9' || 'a' <= c <= 'f')
    ensures c == '0' <==> d == 0
  {
    if d < 10 then '0' + d as char else 'a' + (d - 10) as char
  }

  function HexOf(c: char): (d: nat)
    requires IsHex(c)
    ensures d < 16
  {
    if c <= '9' then (c - '0') as nat
    else if c <= 'F' then 10 + (c - 'A') as nat
    else 10 + (c - 'a') as nat
  }

  predicate AllHex(s: string) {
    forall i :: 0 <= i < |s| ==> IsHex(s[i])
  }

  predicate AllLowerHex(s: string) {
    forall i :: 0 <= i < |s| ==> '0' <= s[i] <= '9' || 'a' <= s[i] <= 'f'
  }

  // The digits are the usual ones; those above nine are read in both cases and written in
  // lower case.
  lemma HexDigits(d: nat)
    requires d < 16
    ensures HexChar(d) == "0123456789abcdef"[d]
    ensures IsHex("0123456789ABCDEF"[d]) && HexOf("0123456789ABCDEF"[d]) == d
  {
  }

  lemma DecimalDigits(d: nat)
    requires d < 10
    ensures DigitChar(d) == "0123456789"[d]
  {
  }

  // toString(16)
  function Hex(n: nat): (s: string)
    ensures |s| > 0 && AllHex(s) && AllLowerHex(s)
  {
    if n < 16 then [HexChar(n)] else Hex(n / 16) + [HexChar(n % 16)]
  }

  function ParseHex(s: string): nat
    requires AllHex(s)
  {
    if |s| == 0 then 0 else 16 * ParseHex(s[..|s| - 1]) + HexOf(s[|s| - 1])
  }

  function PadStart(s: string, n: nat): (r: string)
    ensures |r| == if |s| < n then n else |s|
  {
    if |s| < n then seq(n - |s|, _ => '0') + s else s
  }

  lemma {:induction false} ParseHexPrinted(n: nat)
    ensures ParseHex(Hex(n)) == n
  {
    if n < 16 {
      assert ParseHex(Hex(n)[..0]) == 0;
    } else {
      ParseHexPrinted(n / 16);
      assert Hex(n)[..|Hex(n)| - 1] == Hex(n / 16);
    }
  }

  lemma {:induction false} ParseZeros(z: string, s: string)
    requires forall i :: 0 <= i < |z| ==> z[i] == '0'
    requires AllHex(s)
    ensures ParseHex(z + s) == ParseHex(s)
    decreases |z| + |s|
  {
    var t := z + s;
    if |s| > 0 {
      assert t[..|t| - 1] == z + s[..|s| - 1] && t[|t| - 1] == s[|s| - 1];
      ParseZeros(z, s[..|s| - 1]);
    } else if |z| > 0 {
      assert t == z && t[..|t| - 1] == z[..|z| - 1] + s;
      ParseZeros(z[..|z| - 1], s);
    }
  }

  // At most k digits for a number below 16^k.
  lemma {:induction false} HexLength(n: nat, k: nat)
    requires k > 0 && n < Pow(16, k)
    ensures |Hex(n)| <= k
    decreases k
  {
    if n >= 16 {
      assert Pow(16, 0) == 1;
      HexLength(n / 16, k - 1);
    }
  }
}
