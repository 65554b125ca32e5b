/** Decimal numerals, as `str(int)` prints and `int(str)` reads them. */
module Numerals {
  function Digit(n: nat): char
    requires n < 10
  {
    "0123456789"[n]
  }

  predicate IsDigit(c: char) {
    '0' <= c <= '9'
  }

  // `\d` in a pattern on text matches every decimal digit of Unicode 15.0; they come in blocks of ten.
  predicate InBlock(n: int, zero: int) {
    zero <= n < zero + 10
  }

  predicate DecimalInPlane0(n: int) {
    || InBlock(n, 0x660) || InBlock(n, 0x6F0) || InBlock(n, 0x7C0) || InBlock(n, 0x966) || InBlock(n, 0x9E6)
    || InBlock(n, 0xA66) || InBlock(n, 0xAE6) || InBlock(n, 0xB66) || InBlock(n, 0xBE6) || InBlock(n, 0xC66)
    || InBlock(n, 0xCE6) || InBlock(n, 0xD66) || InBlock(n, 0xDE6) || InBlock(n, 0xE50) || InBlock(n, 0xED0)
    || InBlock(n, 0xF20) || InBlock(n, 0x1040) || InBlock(n, 0x1090) || InBlock(n, 0x17E0) || InBlock(n, 0x1810)
    || InBlock(n, 0x1946) || InBlock(n, 0x19D0) || InBlock(n, 0x1A80) || InBlock(n, 0x1A90) || InBlock(n, 0x1B50)
    || InBlock(n, 0x1BB0) || InBlock(n, 0x1C40) || InBlock(n, 0x1C50) || InBlock(n, 0xA620) || InBlock(n, 0xA8D0)
    || InBlock(n, 0xA900) || InBlock(n, 0xA9D0) || InBlock(n, 0xA9F0) || InBlock(n, 0xAA50) || InBlock(n, 0xABF0)
    || InBlock(n, 0xFF10)
  }

  predicate DecimalBeyond(n: int) {
    || InBlock(n, 0x104A0) || InBlock(n, 0x10D30) || InBlock(n, 0x11066) || InBlock(n, 0x110F0) || InBlock(n, 0x11136)
    || InBlock(n, 0x111D0) || InBlock(n, 0x112F0) || InBlock(n, 0x11450) || InBlock(n, 0x114D0) || InBlock(n, 0x11650)
    || InBlock(n, 0x116C0) || InBlock(n, 0x11730) || InBlock(n, 0x118E0) || InBlock(n, 0x11950) || InBlock(n, 0x11C50)
    || InBlock(n, 0x11D50) || InBlock(n, 0x11DA0) || InBlock(n, 0x11F50) || InBlock(n, 0x16A60) || InBlock(n, 0x16AC0)
    || InBlock(n, 0x16B50) || InBlock(n, 0x1D7CE) || InBlock(n, 0x1D7D8) || InBlock(n, 0x1D7E2) || InBlock(n, 0x1D7EC)
    || InBlock(n, 0x1D7F6) || InBlock(n, 0x1E140) || InBlock(n, 0x1E2F0) || InBlock(n, 0x1E4F0) || InBlock(n, 0x1E950)
    || InBlock(n, 0x1FBF0)
  }

  predicate IsDecimal(c: char) {
    IsDigit(c) || (c >= '\U{0660}' && (DecimalInPlane0(c as int) || DecimalBeyond(c as int)))
  }

  function Decimal(n: nat): (s: string)
    ensures s != "" && forall i :: 0 <= i < |s| ==> IsDigit(s[i])
  {
    if n < 10 then [Digit(n)] else Decimal(n / 10) + [Digit(n % 10)]
  }

  function Value(s: string): int {
    if s == "" then 0 else Value(s[..|s| - 1]) * 10 + (s[|s| - 1] as int - '0' as int)
  }

  lemma {:induction false} DecimalValue(n: nat)
    ensures Value(Decimal(n)) == n
  {
    if n < 10 {
      assert [Digit(n)][..0] == "";
    } else {
      DecimalValue(n / 10);
      var s := Decimal(n);
      assert s[..|s| - 1] == Decimal(n / 10);
    }
  }

  lemma DecimalInjective(m: nat, n: nat)
    requires Decimal(m) == Decimal(n)
    ensures m == n
  {
    DecimalValue(m);
    DecimalValue(n);
  }

  function DigitsEnd(s: string, i: nat): (r: nat)
    requires i <= |s|
    ensures i <= r <= |s|
    ensures r < |s| ==> !IsDigit(s[r])
    ensures forall k :: i <= k < r ==> IsDigit(s[k])
    decreases |s| - i
  {
    if i == |s| || !IsDigit(s[i]) then i else DigitsEnd(s, i + 1)
  }

  lemma DigitsEndIs(s: string, i: nat, r: nat)
    requires i <= r <= |s| && (r < |s| ==> !IsDigit(s[r])) && forall k :: i <= k < r ==> IsDigit(s[k])
    ensures DigitsEnd(s, i) == r
  {
  }

  function DecimalsEnd(s: string, i: nat): (r: nat)
    requires i <= |s|
    ensures i <= r <= |s|
    ensures r < |s| ==> !IsDecimal(s[r])
    ensures forall k :: i <= k < r ==> IsDecimal(s[k])
    decreases |s| - i
  {
    if i == |s| || !IsDecimal(s[i]) then i else DecimalsEnd(s, i + 1)
  }

  lemma DecimalsEndIs(s: string, i: nat, r: nat)
    requires i <= r <= |s| && (r < |s| ==> !IsDecimal(s[r])) && forall k :: i <= k < r ==> IsDecimal(s[k])
    ensures DecimalsEnd(s, i) == r
  {
    hide IsDecimal;
  }

  /** How many digits a number is printed with. */
  lemma {:induction false} DecimalLength(n: nat)
    ensures |Decimal(n)| >= 2 <==> n >= 10
    ensures |Decimal(n)| >= 3 <==> n >= 100
    ensures |Decimal(n)| >= 4 <==> n >= 1000
    ensures |Decimal(n)| >= 5 <==> n >= 10000
  {
    if n >= 10 {
      DecimalLength(n / 10);
    }
  }
}
