/**
 Decimal printing of integers, as Python's `str(int)` does it, with a reader that inverts it.
 Cache keys, clause codes, section codes and SQL literals all embed such numbers.
 */
module Decimal {

  function Digit(d: nat): (c: char)
    requires d < 10
    ensures '0' <= c <= '9'
  {
    (48 + d) as char
  }

  predicate IsDigit(c: char) {
    '0' <= c <= '9'
  }

  function DigitValue(c: char): (d: nat)
    requires IsDigit(c)
    ensures d < 10 && Digit(d) == c
  {
    c as int - 48
  }

  function OfNat(n: nat): (s: string)
    ensures s != [] && forall i :: 0 <= i < |s| ==> IsDigit(s[i])
  {
    if n < 10 then [Digit(n)] else OfNat(n / 10) + [Digit(n % 10)]
  }

  function OfInt(n: int): (s: string)
    ensures s != [] && (s[0] == '-' || IsDigit(s[0]))
    ensures forall i :: 0 <= i < |s| ==> s[i] == '-' || IsDigit(s[i])
    ensures s[0] == '-' <==> n < 0
  {
    if n < 0 then "-" + OfNat(-n) else OfNat(n)
  }

  predicate AllDigits(s: string) {
    forall i :: 0 <= i < |s| ==> IsDigit(s[i])
  }

  function ToNat(s: string): nat
    requires AllDigits(s)
  {
    if s == "" then 0 else 10 * ToNat(s[..|s| - 1]) + DigitValue(s[|s| - 1])
  }

  /** Reading a printed natural number gives the number back. */
  lemma {:induction false} NatRoundTrip(n: nat)
    ensures AllDigits(OfNat(n)) && ToNat(OfNat(n)) == n
  {
    var s := OfNat(n);
    assert DigitValue(Digit(n % 10)) == n % 10;
    if n < 10 {
      assert s[..0] == "";
      assert ToNat(s[..0]) == 0;
    } else {
      NatRoundTrip(n / 10);
      assert s[..|s| - 1] == OfNat(n / 10);
    }
  }

  lemma NatInjective(m: nat, n: nat)
    requires OfNat(m) == OfNat(n)
    ensures m == n
  {
    NatRoundTrip(m);
    NatRoundTrip(n);
  }

  /** Different integers print differently. */
  lemma IntInjective(m: int, n: int)
    requires OfInt(m) == OfInt(n)
    ensures m == n
  {
    assert (m < 0) == (n < 0);
    if m < 0 {
      assert OfInt(m)[1..] == OfNat(-m);
      assert OfInt(n)[1..] == OfNat(-n);
      NatInjective(-m, -n);
    } else {
      NatInjective(m, n);
    }
  }
}
