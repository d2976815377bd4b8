/**
 * Decimal digit strings: the host's `String(n)` conversion of an integer,
 * and the numeric value a digit string denotes (its inverse).
 */
module Decimal {

  import opened Text

  predicate IsDigit(c: char) {
    '0' <= c <= '9'
  }

  predicate AllDigits(s: string) {
    forall i :: 0 <= i < |s| ==> IsDigit(s[i])
  }

  /** The value of one decimal digit character. */
  function DigitValue(c: char): (d: nat)
    requires IsDigit(c)
    ensures d < 10
  {
    (c as int) - ('0' as int)
  }

  /** The character of one decimal digit; inverse of `DigitValue`. */
  function DigitChar(d: nat): (c: char)
    requires d < 10
    ensures IsDigit(c) && DigitValue(c) == d
  {
    (('0' as int) + d) as char
  }

  lemma DigitCharOfValue(c: char)
    requires IsDigit(c)
    ensures DigitChar(DigitValue(c)) == c
  {
  }

  function Pow10(k: nat): (p: nat)
    ensures p >= 1
  {
    if k == 0 then 1 else 10 * Pow10(k - 1)
  }

  /**
   * `String(n)` for a non-negative integer: the shortest decimal
   * representation, with no leading zero except for `0` itself.
   */
  function NatToString(n: nat): (s: string)
    ensures |s| >= 1 && AllDigits(s)
    ensures s[0] == '0' ==> n == 0
    decreases n
  {
    if n < 10 then [DigitChar(n)] else NatToString(n / 10) + [DigitChar(n % 10)]
  }

  /**
   * `String(i)` for any integer: the digits of its magnitude, with no leading
   * zero, after a minus sign exactly when `i` is negative.
   */
  function IntToString(i: int): (s: string)
    ensures |s| >= 1
    ensures s[0] == '-' <==> i < 0
    ensures i >= 0 ==> AllDigits(s) && Value(s) == i
    ensures i < 0 ==> AllDigits(s[1..]) && Value(s[1..]) == -i
    ensures i >= 0 ==> (s[0] == '0' ==> s == "0")
    ensures i < 0 ==> |s| >= 2 && s[1] != '0'
  {
    if i < 0 then
      ValueOfNatToString(-i);
      assert ("-" + NatToString(-i))[1..] == NatToString(-i);
      "-" + NatToString(-i)
    else
      ValueOfNatToString(i);
      NatToString(i)
  }

  /** The number a string of decimal digits denotes (most significant digit first). */
  function Value(s: string): nat
    requires AllDigits(s)
    decreases |s|
  {
    if s == [] then 0 else Value(s[..|s| - 1]) * 10 + DigitValue(s[|s| - 1])
  }

  /** Decoding the decimal string of `n` gives back `n`. */
  lemma {:induction false} ValueOfNatToString(n: nat)
    ensures Value(NatToString(n)) == n
    decreases n
  {
    if n >= 10 {
      var s := NatToString(n);
      ValueOfNatToString(n / 10);
      assert s[..|s| - 1] == NatToString(n / 10);
    }
  }

  /** A digit string that starts with a non-zero digit denotes a positive number. */
  lemma {:induction false} LeadingNonZeroIsPositive(s: string)
    requires AllDigits(s) && |s| >= 1 && s[0] != '0'
    ensures Value(s) >= 1
    decreases |s|
  {
    if |s| > 1 {
      LeadingNonZeroIsPositive(s[..|s| - 1]);
    }
  }

  /**
   * The other direction of the round trip: a canonical digit string (no
   * leading zero unless it is "0") is the decimal string of its value.
   */
  lemma {:induction false} NatToStringOfValue(s: string)
    requires AllDigits(s) && |s| >= 1
    requires s[0] == '0' ==> |s| == 1
    ensures NatToString(Value(s)) == s
    decreases |s|
  {
    if |s| == 1 {
      assert s[..0] == [];
      DigitCharOfValue(s[0]);
    } else {
      var p := s[..|s| - 1];
      var c := s[|s| - 1];
      LeadingNonZeroIsPositive(p);
      NatToStringOfValue(p);
      var n := Value(s);
      assert n / 10 == Value(p) && n % 10 == DigitValue(c);
      DigitCharOfValue(c);
      assert s == p + [c];
    }
  }

  /** The length of `String(n)` is the number `k` with 10^(k-1) <= n < 10^k. */
  lemma {:induction false} NatToStringLength(n: nat)
    ensures n < Pow10(|NatToString(n)|)
    ensures |NatToString(n)| == 1 || Pow10(|NatToString(n)| - 1) <= n
    decreases n
  {
    if n >= 10 {
      NatToStringLength(n / 10);
    }
  }

  lemma {:induction false} Pow10Monotone(i: nat, j: nat)
    requires i <= j
    ensures Pow10(i) <= Pow10(j)
    decreases j
  {
    if i < j {
      Pow10Monotone(i, j - 1);
    }
  }

  /** A number with 10^(k-1) <= n < 10^k has a decimal string of exactly `k` digits. */
  lemma NatToStringHasLength(n: nat, k: nat)
    requires k >= 1 && Pow10(k - 1) <= n < Pow10(k)
    ensures |NatToString(n)| == k
  {
    var len := |NatToString(n)|;
    NatToStringLength(n);
    if len < k {
      Pow10Monotone(len, k - 1);
    } else if len > k {
      Pow10Monotone(k, len - 1);
    }
  }

  /** A number below 10^k has at most `k` digits. */
  lemma NatToStringAtMost(n: nat, k: nat)
    requires k >= 1 && n < Pow10(k)
    ensures |NatToString(n)| <= k
  {
    var len := |NatToString(n)|;
    NatToStringLength(n);
    if len > k {
      Pow10Monotone(k, len - 1);
    }
  }

  /** Leading zeros do not change the value a digit string denotes. */
  lemma {:induction false} ValueIgnoresLeadingZeros(k: nat, s: string)
    requires AllDigits(s)
    ensures AllDigits(Repeat('0', k) + s)
    ensures Value(Repeat('0', k) + s) == Value(s)
    decreases |s|
  {
    var t := Repeat('0', k) + s;
    if s == [] {
      assert t == Repeat('0', k);
      ZerosHaveNoValue(k);
    } else {
      ValueIgnoresLeadingZeros(k, s[..|s| - 1]);
      assert t[..|t| - 1] == Repeat('0', k) + s[..|s| - 1];
    }
  }

  lemma {:induction false} ZerosHaveNoValue(k: nat)
    ensures AllDigits(Repeat('0', k))
    ensures Value(Repeat('0', k)) == 0
  {
    if k > 0 {
      var z := Repeat('0', k);
      ZerosHaveNoValue(k - 1);
      assert z == Repeat('0', k - 1) + ['0'];
      assert z[..k - 1] == Repeat('0', k - 1);
      assert DigitValue(z[k - 1]) == 0;
    }
  }
}
