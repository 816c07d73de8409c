/**
 * Strict base-10 parsing of a string into a 64-bit signed integer, as the
 * dataframe library's `str.to_integer` does for each cell: an optional `+`
 * or `-` sign followed by one or more ASCII digits, whose value must fit
 * in a signed 64-bit integer. Anything else is a parse failure.
 */
module StrToInteger {
  import opened Wrappers

  const Int64Min: int := -0x8000_0000_0000_0000
  const Int64Max: int := 0x7FFF_FFFF_FFFF_FFFF

  predicate IsDigit(c: char) {
    '0' <= c <= '9'
  }

  predicate IsDigits(s: string) {
    forall i :: 0 <= i < |s| ==> IsDigit(s[i])
  }

  function DigitValue(c: char): (d: nat)
    requires IsDigit(c)
    ensures d <= 9
  {
    c as int - '0' as int
  }

  function DigitChar(d: nat): (c: char)
    requires d <= 9
    ensures IsDigit(c) && DigitValue(c) == d
  {
    ('0' as int + d) as char
  }

  /** The number a string of decimal digits denotes, most significant digit first. */
  function DigitsValue(s: string): nat
    requires IsDigits(s)
  {
    if s == [] then 0 else DigitsValue(s[..|s| - 1]) * 10 + DigitValue(s[|s| - 1])
  }

  /** The text after an optional leading sign. */
  function Unsigned(s: string): (digits: string)
    ensures digits <= s || (|s| > 0 && digits == s[1..])
  {
    if |s| > 0 && (s[0] == '+' || s[0] == '-') then s[1..] else s
  }

  /** The accepted shape: an optional sign, then at least one digit. */
  predicate IsIntegerText(s: string) {
    var digits := Unsigned(s);
    |digits| > 0 && IsDigits(digits)
  }

  /** Parses `s`; None is the parse error. */
  function ParseInt(s: string): (r: Option<int>)
    ensures r.Some? ==> IsIntegerText(s) && Int64Min <= r.value <= Int64Max
    ensures r.Some? && r.value < 0 ==> s[0] == '-'
    ensures IsIntegerText(s) && s[0] != '-' ==> (r.Some? <==> DigitsValue(Unsigned(s)) <= Int64Max)
    ensures r.Some? && s[0] != '-' ==> r.value == DigitsValue(Unsigned(s))
    ensures IsIntegerText(s) && s[0] == '-' ==> (r.Some? <==> DigitsValue(Unsigned(s)) <= -Int64Min)
    ensures r.Some? && s[0] == '-' ==> r.value == -(DigitsValue(Unsigned(s)) as int)
  {
    var digits := Unsigned(s);
    if digits == [] || !IsDigits(digits) then None
    else
      var value: int := DigitsValue(digits);
      var n := if s[0] == '-' then -value else value;
      if Int64Min <= n <= Int64Max then Some(n) else None
  }

  /** The canonical decimal rendering of a natural number: no sign, no leading zeros. */
  function ShowNat(n: nat): (s: string)
    ensures |s| > 0 && IsDigits(s)
    ensures s[0] != '0' || n == 0
  {
    if n < 10 then [DigitChar(n)] else ShowNat(n / 10) + [DigitChar(n % 10)]
  }

  /** Reading back the rendering of `n` gives `n`. */
  lemma {:induction false} DigitsValueOfShowNat(n: nat)
    ensures DigitsValue(ShowNat(n)) == n
  {
    var s := ShowNat(n);
    if n >= 10 {
      DigitsValueOfShowNat(n / 10);
      assert s[..|s| - 1] == ShowNat(n / 10);
    }
  }

  /** A digit string whose first digit is not zero denotes a positive number. */
  lemma {:induction false} LeadingNonZeroIsPositive(s: string)
    requires |s| > 0 && IsDigits(s) && s[0] != '0'
    ensures DigitsValue(s) > 0
  {
    if |s| > 1 {
      var p := s[..|s| - 1];
      assert IsDigits(p) && p[0] == s[0];
      LeadingNonZeroIsPositive(p);
    }
  }

  /** Rendering the value of a digit string without leading zeros gives that string back. */
  lemma {:induction false} ShowNatOfDigitsValue(s: string)
    requires |s| > 0 && IsDigits(s)
    requires s[0] != '0' || |s| == 1
    ensures ShowNat(DigitsValue(s)) == s
  {
    if |s| > 1 {
      var p := s[..|s| - 1];
      assert IsDigits(p) && p[0] == s[0];
      LeadingNonZeroIsPositive(p);
      ShowNatOfDigitsValue(p);
      var n := DigitsValue(s);
      assert n / 10 == DigitsValue(p) && n % 10 == DigitValue(s[|s| - 1]);
      assert DigitChar(n % 10) == s[|s| - 1];
    }
  }

  /** Every natural number in the 64-bit range parses back from its rendering. */
  lemma ParseShowNat(n: nat)
    requires n <= Int64Max
    ensures ParseInt(ShowNat(n)) == Some(n)
  {
    DigitsValueOfShowNat(n);
  }

  /** A natural number beyond the 64-bit range does not parse from its rendering. */
  lemma ParseShowNatOverflow(n: nat)
    requires n > Int64Max
    ensures ParseInt(ShowNat(n)) == None
  {
    DigitsValueOfShowNat(n);
  }

  /** A value that parses from an unsigned text without leading zeros renders back to that text. */
  lemma ShowParseInt(s: string)
    requires |s| > 0 && IsDigits(s) && (s[0] != '0' || |s| == 1)
    requires ParseInt(s).Some?
    ensures ParseInt(s).value >= 0 && ShowNat(ParseInt(s).value) == s
  {
    ShowNatOfDigitsValue(s);
  }

  /** A sign alone, an empty text and a text with a non-digit do not parse. */
  lemma ParseIntRejects()
    ensures ParseInt("") == None && ParseInt("+") == None && ParseInt("-") == None
    ensures ParseInt("12a") == None
  {
    assert !IsDigit('a');
  }

  /** A leading sign is accepted and a '-' negates the value. */
  lemma ParseIntSigns()
    ensures ParseInt("+2021") == Some(2021) && ParseInt("-7") == Some(-7)
  {
    assert ShowNat(2021) == "2021";
    DigitsValueOfShowNat(2021);
  }
}
