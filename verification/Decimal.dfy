/** Decimal printing and parsing: strconv.Itoa, FormatInt, FormatUint and Atoi. */
module Decimal {
  import opened Basics

  const MINUS: Byte := 45
  const PLUS: Byte := 43
  const ZERO: Byte := 48

  predicate IsDigit(c: Byte) {
    ZERO <= c < ZERO + 10
  }

  predicate AllDigits(s: Bytes) {
    forall i :: 0 <= i < |s| ==> IsDigit(s[i])
  }

  function FormatNat(n: nat): (s: Bytes)
    ensures s != [] && AllDigits(s)
  {
    if n < 10 then [ZERO + n] else FormatNat(n / 10) + [ZERO + n % 10]
  }

  function FormatInt(i: int): (s: Bytes)
    ensures s != []
  {
    if i < 0 then [MINUS] + FormatNat(-i) else FormatNat(i)
  }

  function DigitsValue(s: Bytes): nat
    requires AllDigits(s)
  {
    if s == [] then 0 else 10 * DigitsValue(s[..|s| - 1]) + (s[|s| - 1] - ZERO)
  }

  /** strconv.Atoi on a 64-bit platform: an optional sign, at least one digit, nothing else, and in range. */
  function Atoi(s: Bytes): Option<int> {
    var digits := if s != [] && (s[0] == MINUS || s[0] == PLUS) then s[1..] else s;
    if digits == [] || !AllDigits(digits) then None
    else
      var v: int := if s[0] == MINUS then 0 - DigitsValue(digits) else DigitsValue(digits);
      if -0x8000_0000_0000_0000 <= v < 0x8000_0000_0000_0000 then Some(v) else None
  }

  lemma {:induction false} DigitsValueOfFormatNat(n: nat)
    ensures DigitsValue(FormatNat(n)) == n
  {
    if n >= 10 {
      DigitsValueOfFormatNat(n / 10);
      assert FormatNat(n)[..|FormatNat(n)| - 1] == FormatNat(n / 10);
    } else {
      assert FormatNat(n)[..0] == [];
    }
  }

  /** Atoi undoes decimal printing on every 64-bit integer. */
  lemma AtoiOfFormatInt(i: int)
    requires -0x8000_0000_0000_0000 <= i < 0x8000_0000_0000_0000
    ensures Atoi(FormatInt(i)) == Some(i)
  {
    DigitsValueOfFormatNat(if i < 0 then -i else i);
    if i < 0 {
      assert FormatInt(i)[1..] == FormatNat(-i);
    } else {
      assert IsDigit(FormatInt(i)[0]);
    }
  }

  lemma AtoiOfFormatNat(n: nat)
    requires n < 0x8000_0000_0000_0000
    ensures Atoi(FormatNat(n)) == Some(n)
  {
    AtoiOfFormatInt(n);
  }

  /** Any number below 10^k prints in at most k digits. */
  lemma {:induction false} FormatNatLength(n: nat, k: nat)
    requires 1 <= k && n < Pow10(k)
    ensures |FormatNat(n)| <= k
  {
    if n >= 10 {
      FormatNatLength(n / 10, k - 1);
    }
  }

  function Pow10(k: nat): nat {
    if k == 0 then 1 else 10 * Pow10(k - 1)
  }

  /** Every 64-bit number prints in at most 20 digits. */
  lemma FormatNat64(n: nat)
    requires n < 0x1_0000_0000_0000_0000
    ensures |FormatNat(n)| <= 20
  {
    assert Pow10(3) == 1000;
    assert Pow10(6) == 1000_000;
    assert Pow10(9) == 1000_000_000;
    assert Pow10(12) == 1000_000_000_000;
    assert Pow10(15) == 1000_000_000_000_000;
    assert Pow10(18) == 1000_000_000_000_000_000;
    FormatNatLength(n, 20);
  }
}
