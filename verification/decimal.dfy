/** Fixed-width integers and their decimal rendering, as produced by
    `std::to_string` and `ostream << int`. */
module Decimal {

  /** The C++ `int` of the client: 32-bit two's complement. */
  type int32 = x: int | -0x8000_0000 <= x < 0x8000_0000

  predicate IsInt32(x: int) { -0x8000_0000 <= x < 0x8000_0000 }

  predicate IsDigit(c: char) { '0' <= c <= '9' }

  predicate AllDigits(s: string) { forall i :: 0 <= i < |s| ==> IsDigit(s[i]) }

  function DigitChar(d: nat): (c: char)
    requires d < 10
    ensures IsDigit(c)
  {
    "0123456789"[d]
  }

  function DigitValue(c: char): (d: nat)
    requires IsDigit(c)
    ensures d < 10
  {
    (c as int - '0' as int) as nat
  }

  lemma DigitRoundTrip(d: nat)
    requires d < 10
    ensures DigitValue(DigitChar(d)) == d
  {
  }

  /** Decimal digits of `n`, most significant first, with no leading zero. */
  function NatToString(n: nat): (s: string)
    ensures |s| >= 1
    ensures AllDigits(s)
    ensures |s| > 1 ==> s[0] != '0'
    decreases n
  {
    if n < 10 then [DigitChar(n)]
    else NatToString(n / 10) + [DigitChar(n % 10)]
  }

  /** Value of a string of decimal digits, read left to right. */
  function ParseNat(s: string): (n: nat)
    requires AllDigits(s)
    decreases |s|
  {
    if |s| == 0 then 0
    else ParseNat(s[..|s| - 1]) * 10 + DigitValue(s[|s| - 1])
  }

  lemma {:induction false} NatRoundTrip(n: nat)
    ensures ParseNat(NatToString(n)) == n
    decreases n
  {
    var s := NatToString(n);
    if n < 10 {
      DigitRoundTrip(n);
    } else {
      NatRoundTrip(n / 10);
      assert s[..|s| - 1] == NatToString(n / 10);
      DigitRoundTrip(n % 10);
    }
  }

  /** Decimal rendering of a signed integer: a '-' sign, then the digits of
      its magnitude. */
  function IntToString(i: int): (s: string)
    ensures |s| >= 1
    ensures i < 0 <==> s[0] == '-'
    ensures i >= 0 ==> AllDigits(s)
    ensures i < 0 ==> AllDigits(s[1..]) && |s| >= 2
  {
    if i < 0 then "-" + NatToString(-i) else NatToString(i)
  }

  /** Inverse of `IntToString`: an optional '-', then at least one digit. */
  function ParseInt(s: string): (r: int)
    requires |s| >= 1
    requires if s[0] == '-' then |s| >= 2 && AllDigits(s[1..]) else AllDigits(s)
  {
    if s[0] == '-' then 0 - ParseNat(s[1..]) else ParseNat(s)
  }

  lemma IntRoundTrip(i: int)
    ensures ParseInt(IntToString(i)) == i
  {
    var s := IntToString(i);
    if i < 0 {
      var m: nat := -i;
      assert s == "-" + NatToString(m);
      assert s[1..] == NatToString(m);
      NatRoundTrip(m);
      assert ParseInt(s) == 0 - ParseNat(s[1..]);
    } else {
      NatRoundTrip(i);
    }
  }

  /** A rendered integer never contains a character outside '-' and the digits. */
  lemma IntToStringChars(i: int, k: int)
    requires 0 <= k < |IntToString(i)|
    ensures IsDigit(IntToString(i)[k]) || IntToString(i)[k] == '-'
    ensures IntToString(i)[k] == '-' ==> k == 0
  {
    var s := IntToString(i);
    if i < 0 && k > 0 {
      assert s[k] == s[1..][k - 1];
    }
  }
}
