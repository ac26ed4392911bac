/**
 Decimal text of integers: Python's `str(n)` for an int and the canonical part
 of Python's `int(text)` (an optional sign followed by ASCII digits).
 */
module Decimal {
  import opened Wrappers

  predicate IsDigit(c: char) {
    '0' <= c <= '9'
  }

  predicate AllDigits(s: string) {
    forall i :: 0 <= i < |s| ==> IsDigit(s[i])
  }

  function DigitValue(c: char): (d: nat)
    requires IsDigit(c)
    ensures d < 10
  {
    c as int - '0' as int
  }

  function DigitChar(d: nat): (c: char)
    requires d < 10
    ensures IsDigit(c) && DigitValue(c) == d
  {
    ('0' as int + d) as char
  }

  /** The number a string of digits denotes, most significant digit first. */
  function DigitsValue(s: string): nat
    requires AllDigits(s)
  {
    if s == [] then 0 else DigitsValue(s[..|s| - 1]) * 10 + DigitValue(s[|s| - 1])
  }

  /** `str(n)` for a non-negative int: digits only, no leading zero, denoting n. */
  function NatToDecimal(n: nat): (r: string)
    ensures |r| > 0 && AllDigits(r)
    ensures DigitsValue(r) == n
    ensures r[0] == '0' ==> n == 0
  {
    if n < 10 then [DigitChar(n)]
    else
      var prefix := NatToDecimal(n / 10);
      var r := prefix + [DigitChar(n % 10)];
      assert r[..|r| - 1] == prefix;
      r
  }

  /** `str(i)` for any int. */
  function IntToDecimal(i: int): (r: string)
    ensures |r| > 0
  {
    if i < 0 then "-" + NatToDecimal(-i) else NatToDecimal(i)
  }

  /** A non-empty string of digits, read as a number; absent otherwise. */
  function ParseNat(s: string): (r: Option<nat>)
    ensures r.Some? <==> |s| > 0 && AllDigits(s)
  {
    if |s| > 0 && AllDigits(s) then Some(DigitsValue(s)) else None
  }

  /** The texts `int()` accepts in this model: an optional sign and at least one digit. */
  predicate IsDecimal(s: string) {
    if |s| > 0 && (s[0] == '-' || s[0] == '+') then |s| > 1 && AllDigits(s[1..])
    else |s| > 0 && AllDigits(s)
  }

  /** `int(s)` restricted to canonical decimal text; absent where Python raises. */
  function ParseInt(s: string): (r: Option<int>)
    ensures r.Some? <==> IsDecimal(s)
  {
    if |s| > 0 && (s[0] == '-' || s[0] == '+') then
      match ParseNat(s[1..])
      case Some(n) => Some(if s[0] == '-' then -(n as int) else n as int)
      case None => None
    else
      match ParseNat(s)
      case Some(n) => Some(n)
      case None => None
  }

  /** Reading back the decimal text of a natural number gives that number. */
  lemma ParseNatOfDecimal(n: nat)
    ensures ParseNat(NatToDecimal(n)) == Some(n)
  {
  }

  /** `int(str(i)) == i` for every int. */
  lemma ParseIntOfDecimal(i: int)
    ensures ParseInt(IntToDecimal(i)) == Some(i)
  {
    if i < 0 {
      var s := IntToDecimal(i);
      assert s[1..] == NatToDecimal(-i);
    }
  }

  /**
   A character that is neither a digit nor a leading sign makes the text not a
   number.
   */
  lemma ParseIntRejects(s: string, k: nat)
    requires k < |s| && !IsDigit(s[k])
    requires k != 0 || (s[0] != '-' && s[0] != '+') || |s| == 1
    ensures ParseInt(s) == None
  {
    if k > 0 && (s[0] == '-' || s[0] == '+') {
      assert !IsDigit(s[1..][k - 1]);
    }
  }

  /** Leading zeros are accepted, as by `int()`: the value does not change. */
  lemma ParseNatLeadingZero(s: string)
    requires |s| > 0 && AllDigits(s)
    ensures ParseNat("0" + s) == ParseNat(s)
  {
    DigitsValueLeadingZero(s);
  }

  lemma {:induction false} DigitsValueLeadingZero(s: string)
    requires AllDigits(s)
    ensures AllDigits("0" + s) && DigitsValue("0" + s) == DigitsValue(s)
  {
    if s != [] {
      var t := "0" + s;
      assert t[..|t| - 1] == "0" + s[..|s| - 1];
      DigitsValueLeadingZero(s[..|s| - 1]);
    }
  }
}
