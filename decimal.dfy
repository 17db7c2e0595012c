/**
 * Decimal text for natural numbers, as Python writes and reads it:
 * `str(n)`, `int(s)` on a run of ASCII digits, and the `{:02d}` format.
 */
module Decimal {

  predicate IsDigit(c: char) { '0' <= c <= '9' }

  predicate AllDigits(s: string) { forall i :: 0 <= i < |s| ==> IsDigit(s[i]) }

  function DigitValue(c: char): (d: nat)
    requires IsDigit(c)
    ensures d < 10
  {
    (c as int) - ('0' as int)
  }

  function DigitChar(d: nat): (c: char)
    requires d < 10
    ensures IsDigit(c) && DigitValue(c) == d
  {
    (d + '0' as int) as char
  }

  /** `int(s)` for a string of ASCII digits; leading zeros are allowed. */
  function ParseDigits(s: string): nat
    requires AllDigits(s)
  {
    if s == [] then 0 else ParseDigits(s[..|s| - 1]) * 10 + DigitValue(s[|s| - 1])
  }

  lemma ParseDigitsSnoc(s: string, c: char)
    requires AllDigits(s) && IsDigit(c)
    ensures AllDigits(s + [c]) && ParseDigits(s + [c]) == ParseDigits(s) * 10 + DigitValue(c)
  {
    assert (s + [c])[..|s|] == s;
  }

  /** `str(n)`: the shortest decimal numeral of n. */
  function NatToString(n: nat): (s: string)
    ensures 1 <= |s| && AllDigits(s)
  {
    if n < 10 then [DigitChar(n)] else NatToString(n / 10) + [DigitChar(n % 10)]
  }

  /** The numeral reads back as n, and starts with '0' only for zero. */
  lemma {:induction false} NatToStringParses(n: nat)
    ensures ParseDigits(NatToString(n)) == n
    ensures NatToString(n)[0] == '0' <==> n == 0
  {
    if n < 10 {
      ParseDigitsSnoc([], DigitChar(n));
      assert [DigitChar(n)] == [] + [DigitChar(n)];
    } else {
      NatToStringParses(n / 10);
      ParseDigitsSnoc(NatToString(n / 10), DigitChar(n % 10));
    }
  }

  /** Leading zeros do not change the value `int` reads. */
  lemma {:induction false} LeadingZero(s: string)
    requires AllDigits(s)
    ensures AllDigits("0" + s) && ParseDigits("0" + s) == ParseDigits(s)
  {
    if s != [] {
      var t := s[..|s| - 1];
      LeadingZero(t);
      assert "0" + s == ("0" + t) + [s[|s| - 1]];
      ParseDigitsSnoc("0" + t, s[|s| - 1]);
      assert s == t + [s[|s| - 1]];
      ParseDigitsSnoc(t, s[|s| - 1]);
    } else {
      assert "0" + s == [] + ['0'];
      ParseDigitsSnoc([], '0');
    }
  }

  /** A larger number never has a shorter numeral. */
  lemma {:induction false} NatToStringMonotone(m: nat, n: nat)
    requires m <= n
    ensures |NatToString(m)| <= |NatToString(n)|
  {
    if 10 <= m {
      NatToStringMonotone(m / 10, n / 10);
    }
  }

  function Max(a: int, b: int): int { if a < b then b else a }

  /** `"{:02d}".format(n)`: the numeral of n, zero-padded on the left to two digits. */
  function Pad2(n: nat): (s: string)
    ensures AllDigits(s) && |s| >= 2
  {
    var d := NatToString(n);
    if |d| < 2 then "0" + d else d
  }

  /** The padded numeral reads back as n, and is `str(n)` itself once that has two digits or more. */
  lemma Pad2Facts(n: nat)
    ensures ParseDigits(Pad2(n)) == n
    ensures |Pad2(n)| == Max(2, |NatToString(n)|)
    ensures |NatToString(n)| >= 2 ==> Pad2(n) == NatToString(n)
  {
    NatToStringParses(n);
    LeadingZero(NatToString(n));
  }
}
