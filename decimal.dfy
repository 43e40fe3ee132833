/** Decimal text of integers: how an integer is rendered inside an
    f-string, and Python's `int()` applied to a string of decimal digits
    with an optional sign. */
module Decimal {
  import opened Common

  predicate IsDigit(c: char)
  {
    '0' <= c <= '9'
  }

  predicate AllDigits(s: string)
  {
    forall i :: 0 <= i < |s| ==> IsDigit(s[i])
  }

  function DigitValue(c: char): nat
    requires IsDigit(c)
  {
    c as int - '0' as int
  }

  function DigitChar(d: nat): (c: char)
    requires d < 10
    ensures IsDigit(c) && DigitValue(c) == d
  {
    ('0' as int + d) as char
  }

  /** The decimal digits of `n`, most significant first, no leading zero. */
  function ShowNat(n: nat): (r: string)
    ensures r != [] && AllDigits(r)
    ensures |r| > 1 ==> r[0] != '0'
  {
    if n < 10 then [DigitChar(n)] else ShowNat(n / 10) + [DigitChar(n % 10)]
  }

  /** `str(n)` for an integer. */
  function ShowInt(n: int): (r: string)
    ensures n < 0 <==> (r != [] && r[0] == '-')
  {
    if n < 0 then "-" + ShowNat(-n) else ShowNat(n)
  }

  /** The number a string of digits denotes (leading zeros allowed). */
  function DigitsValue(s: string): nat
    requires AllDigits(s)
  {
    if s == [] then 0 else 10 * DigitsValue(s[..|s| - 1]) + DigitValue(s[|s| - 1])
  }

  /** `s` without one leading sign character. */
  function Unsigned(s: string): string
  {
    if s != [] && (s[0] == '+' || s[0] == '-') then s[1..] else s
  }

  /** `int(s)` for a string: an optional sign followed by at least one
      digit; anything else raises ValueError. */
  function ParseInt(s: string): (r: Result<int>)
    ensures r.Ok? <==> Unsigned(s) != [] && AllDigits(Unsigned(s))
    ensures r.Err? ==> r.error == ValueError
    ensures r.Ok? && s[0] == '-' ==> r.value <= 0
    ensures r.Ok? && s[0] != '-' ==> r.value >= 0
  {
    var digits := Unsigned(s);
    if digits == [] || !AllDigits(digits) then Err(ValueError)
    else
      var magnitude: int := DigitsValue(digits);
      Ok(if s[0] == '-' then -magnitude else magnitude)
  }

  /** Reading back the digits of a natural number gives that number. */
  lemma {:induction false} DigitsRoundTrip(n: nat)
    ensures DigitsValue(ShowNat(n)) == n
  {
    var s := ShowNat(n);
    if n >= 10 {
      DigitsRoundTrip(n / 10);
      assert s[..|s| - 1] == ShowNat(n / 10);
      assert DigitValue(s[|s| - 1]) == n % 10;
    } else {
      assert s[..|s| - 1] == [];
    }
  }

  /** `int(str(n)) == n` for every integer. */
  lemma ParseShowInt(n: int)
    ensures ParseInt(ShowInt(n)) == Ok(n)
  {
    var s := ShowInt(n);
    if n < 0 {
      assert Unsigned(s) == ShowNat(-n);
      DigitsRoundTrip(-n);
    } else {
      assert Unsigned(s) == ShowNat(n);
      DigitsRoundTrip(n);
    }
  }

  /** A leading zero does not change the number a string of digits
      denotes. */
  lemma {:induction false} LeadingZeroValue(s: string)
    requires AllDigits(s)
    ensures AllDigits("0" + s) && DigitsValue("0" + s) == DigitsValue(s)
  {
    var z := "0" + s;
    if s == [] {
      assert z[..|z| - 1] == [];
    } else {
      LeadingZeroValue(s[..|s| - 1]);
      assert z[..|z| - 1] == "0" + s[..|s| - 1];
    }
  }

  /** Numerals that are not canonical parse too: `int("0" + str(n))`,
      `int("+" + str(n))` and `int("-0" + str(n))` give n, n and -n for
      every natural n. */
  lemma ParseNonCanonical(n: nat)
    ensures ParseInt("0" + ShowInt(n)) == Ok(n)
    ensures ParseInt("+" + ShowInt(n)) == Ok(n)
    ensures ParseInt("-0" + ShowInt(n)) == Ok(-(n as int))
  {
    var s := ShowInt(n);
    assert s == ShowNat(n);
    DigitsRoundTrip(n);
    LeadingZeroValue(s);
    ParseDigits(s, n);
    ParseDigits("0" + s, n);
    assert "-0" + s == "-" + ("0" + s);
  }

  /** A string of digits parses to its value, with or without a sign. */
  lemma ParseDigits(s: string, value: nat)
    requires s != [] && AllDigits(s) && DigitsValue(s) == value
    ensures ParseInt(s) == Ok(value)
    ensures ParseInt("+" + s) == Ok(value)
    ensures ParseInt("-" + s) == Ok(-(value as int))
  {
    assert IsDigit(s[0]) && Unsigned(s) == s;
    assert Unsigned("+" + s) == s;
    assert Unsigned("-" + s) == s;
  }

  /** Distinct natural numbers have distinct decimal texts. */
  lemma ShowNatInjective(a: nat, b: nat)
    requires ShowNat(a) == ShowNat(b)
    ensures a == b
  {
    DigitsRoundTrip(a);
    DigitsRoundTrip(b);
  }
}
