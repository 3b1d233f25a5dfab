/**
 * Decimal text of integers, as Python's `str(n)` writes it and `int(s)` reads it back.
 * parallel.py uses the first for the default MASTER_PORT and the second for LOCAL_RANK
 * and LOCAL_WORLD_SIZE.
 */
module Decimal {
  import opened Wrappers

  predicate IsDigit(c: char) {
    '0' <= c <= '9'
  }

  predicate AllDigits(s: string) {
    forall i :: 0 <= i < |s| ==> IsDigit(s[i])
  }

  function DigitValue(c: char): int
    requires IsDigit(c)
  {
    c as int - '0' as int
  }

  function DigitChar(d: int): char
    requires 0 <= d < 10
  {
    ('0' as int + d) as char
  }

  /** The value of a string of decimal digits, most significant first. */
  function DigitsValue(s: string): nat
    requires AllDigits(s)
  {
    if s == [] then 0 else DigitsValue(s[..|s| - 1]) * 10 + DigitValue(s[|s| - 1])
  }

  /** `str(n)` for n >= 0: the shortest digit string, no leading zeros. */
  function NatToString(n: nat): (s: string)
    ensures 1 <= |s| && AllDigits(s)
    ensures |s| > 1 ==> s[0] != '0'
  {
    if n < 10 then [DigitChar(n)] else NatToString(n / 10) + [DigitChar(n % 10)]
  }

  /** `str(n)` for any int: a minus sign before the digits of a negative number. */
  function IntToString(n: int): (s: string)
    ensures 1 <= |s|
    ensures n < 0 <==> s[0] == '-'
  {
    if n < 0 then "-" + NatToString(-n) else NatToString(n)
  }

  /**
   * `int(s)` on the strings it accepts without surrounding blanks or `_` separators:
   * an optional sign followed by at least one decimal digit; None stands for ValueError.
   */
  function ParseInt(s: string): (r: Option<int>)
    ensures r.Some? ==> s != [] && (IsDigit(s[0]) || s[0] == '-' || s[0] == '+')
    ensures r.Some? && r.value < 0 ==> s[0] == '-'
    ensures s != [] && AllDigits(s) ==> r == Some(DigitsValue(s))
    ensures s == [] || !AllDigits(s[1..]) ==> r == None
    ensures |s| >= 2 && (s[0] == '-' || s[0] == '+') && AllDigits(s[1..]) ==>
      var magnitude: int := DigitsValue(s[1..]);
      r == Some(if s[0] == '-' then -magnitude else magnitude)
    ensures |s| == 1 && !IsDigit(s[0]) ==> r == None
  {
    if |s| >= 2 && (s[0] == '-' || s[0] == '+') && AllDigits(s[1..]) then
      var magnitude: int := DigitsValue(s[1..]);
      Some(if s[0] == '-' then -magnitude else magnitude)
    else if |s| >= 1 && AllDigits(s) then
      Some(DigitsValue(s))
    else
      None
  }

  lemma {:induction false} DigitsRoundTrip(n: nat)
    ensures DigitsValue(NatToString(n)) == n
  {
    if n >= 10 {
      var s := NatToString(n);
      assert s[..|s| - 1] == NatToString(n / 10);
      DigitsRoundTrip(n / 10);
    }
  }

  /** Reading back what `str` wrote gives the same integer. */
  lemma ParseIntRoundTrip(n: int)
    ensures ParseInt(IntToString(n)) == Some(n)
  {
    if n < 0 {
      ParseNegativeRoundTrip(-n);
    } else {
      DigitsRoundTrip(n);
      var s := NatToString(n);
      assert ParseInt(s) == Some(DigitsValue(s));
    }
  }

  /** Reading back the text `str` writes for a negative number. */
  lemma ParseNegativeRoundTrip(m: int)
    requires m > 0
    ensures ParseInt("-" + NatToString(m)) == Some(-m)
  {
    var s := "-" + NatToString(m);
    assert s[0] == '-' && s[1..] == NatToString(m);
    DigitsRoundTrip(m);
  }


  /** `int` refuses the empty string and text that is not a numeral. */
  lemma ParseIntRejects()
    ensures ParseInt("") == None
    ensures ParseInt("-") == None
    ensures ParseInt("4a") == None
  {
    assert "4a"[1] == 'a' && !IsDigit('a');
  }
}
