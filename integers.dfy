/**
 * Python's `int(s)` on strings and `str(n)` on integers, as far as
 * validate_operators uses them (utils.py:116-119 parse both operands of `<`
 * and `>`; utils.py:101 renders a record field with `str`).
 */
module Integers {
  import opened Wrappers

  predicate IsDigit(c: char) {
    '0' <= c <= '9'
  }

  predicate AllDigits(s: string) {
    forall i :: 0 <= i < |s| ==> IsDigit(s[i])
  }

  /** The value of a string of decimal digits. */
  function DigitsValue(s: string): nat
    requires AllDigits(s)
  {
    if s == [] then 0
    else DigitsValue(s[..|s| - 1]) * 10 + (s[|s| - 1] as int - '0' as int)
  }

  /** `int(s)`: an optional sign followed by one or more ASCII digits; None
      stands for the ValueError that Python raises on anything else. */
  function ParseInt(s: string): (r: Option<int>)
    ensures r.Some? ==> s != [] && forall i :: 0 < i < |s| ==> IsDigit(s[i])
    ensures r.Some? ==> (r.value < 0 ==> s[0] == '-')
  {
    if s != [] && (s[0] == '-' || s[0] == '+') then
      var digits := s[1..];
      if digits != [] && AllDigits(digits) then
        var magnitude: int := DigitsValue(digits);
        Some(if s[0] == '-' then -magnitude else magnitude)
      else None
    else if s != [] && AllDigits(s) then Some(DigitsValue(s))
    else None
  }

  function DigitChar(d: nat): char
    requires d < 10
  {
    ('0' as int + d) as char
  }

  /** The decimal digits of n, most significant first, without leading zeros. */
  function NatToDigits(n: nat): (s: string)
    ensures s != [] && AllDigits(s)
  {
    if n < 10 then [DigitChar(n)]
    else NatToDigits(n / 10) + [DigitChar(n % 10)]
  }

  /** `str(n)` for an integer n. */
  function IntToString(n: int): (s: string)
    ensures s != [] && (s[0] == '-' <==> n < 0)
    ensures forall i :: 0 < i < |s| ==> IsDigit(s[i])
  {
    if n < 0 then "-" + NatToDigits(-n) else NatToDigits(n)
  }

  lemma {:induction false} DigitsRoundTrip(n: nat)
    ensures DigitsValue(NatToDigits(n)) == n
  {
    var s := NatToDigits(n);
    if n >= 10 {
      DigitsRoundTrip(n / 10);
      assert s[..|s| - 1] == NatToDigits(n / 10);
    }
  }

  /** int(str(n)) == n: the integer rendering of a record field parses back
      to the same integer. */
  lemma ParseIntOfIntToString(n: int)
    ensures ParseInt(IntToString(n)) == Some(n)
  {
    if n < 0 {
      DigitsRoundTrip(-n);
      assert IntToString(n)[1..] == NatToDigits(-n);
    } else {
      DigitsRoundTrip(n);
    }
  }

  predicate AllZeros(z: string) {
    forall i :: 0 <= i < |z| ==> z[i] == '0'
  }

  /** Zero digits in front do not change the value. */
  lemma {:induction false} DigitsValueLeadingZeros(z: string, d: string)
    requires AllZeros(z) && AllDigits(d)
    ensures AllDigits(z + d) && DigitsValue(z + d) == DigitsValue(d)
  {
    if d == [] {
      assert z + d == z;
      DigitsValueZeros(z);
    } else {
      var d' := d[..|d| - 1];
      DigitsValueLeadingZeros(z, d');
      assert (z + d)[..|z + d| - 1] == z + d';
    }
  }

  lemma {:induction false} DigitsValueZeros(z: string)
    requires AllZeros(z)
    ensures AllDigits(z) && DigitsValue(z) == 0
  {
    if z != [] {
      DigitsValueZeros(z[..|z| - 1]);
    }
  }

  /** int() accepts leading zeros, after an optional sign: "007", "+007"
      and "-007" are 7, 7 and -7. */
  lemma ParseIntLeadingZeros(zeros: string, n: nat)
    requires AllZeros(zeros)
    ensures var d := zeros + NatToDigits(n);
            && ParseInt(d) == Some(n)
            && ParseInt("+" + d) == Some(n)
            && ParseInt("-" + d) == Some(-(n as int))
  {
    var d := zeros + NatToDigits(n);
    DigitsValueLeadingZeros(zeros, NatToDigits(n));
    DigitsRoundTrip(n);
    assert d != [] && IsDigit(d[0]);
    assert ("+" + d)[1..] == d;
    assert ("-" + d)[1..] == d;
  }

  /** Text that int() accepts starts with a sign or a digit and is not empty. */
  lemma ParseIntRejects(s: string)
    ensures s == [] ==> ParseInt(s).None?
    ensures s != [] && !IsDigit(s[0]) && s[0] != '-' && s[0] != '+' ==> ParseInt(s).None?
  {
  }
}
