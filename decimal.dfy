/**
 * Decimal text for the integer types: a model of Rust's `FromStr` (what
 * `l.parse::<T>()` does for an integer `T`) and of `Display` (what
 * `println!("{}", num)` prints). These are standard-library calls, not code of
 * the program; the model follows the library's documented rules: an optional
 * `+`, or `-` for signed types only, then one or more ASCII digits, and the
 * value must fit the type. No white space is accepted.
 */
module Decimal {
  import opened Wrappers
  import opened Codec

  predicate IsDigit(c: char) {
    '0' <= c <= '9'
  }

  predicate AllDigits(s: string) {
    forall i :: 0 <= i < |s| ==> IsDigit(s[i])
  }

  function DigitValue(c: char): (d: nat)
    requires IsDigit(c)
    ensures d < 10
  {
    (c as int) - ('0' as int)
  }

  function DigitChar(d: nat): (c: char)
    requires d < 10
    ensures IsDigit(c) && DigitValue(c) == d
  {
    ('0' as int + d) as char
  }

  /** The number a string of decimal digits denotes, most significant digit first. */
  function DigitsValue(s: string): nat
    requires AllDigits(s)
  {
    if s == [] then 0 else 10 * DigitsValue(s[..|s| - 1]) + DigitValue(s[|s| - 1])
  }

  /** The shortest decimal numeral of `n`: no sign, no leading zero. */
  function Digits(n: nat): (s: string)
    ensures |s| > 0 && AllDigits(s)
    ensures |s| > 1 ==> s[0] != '0'
  {
    if n < 10 then [DigitChar(n)] else Digits(n / 10) + [DigitChar(n % 10)]
  }

  /** `Display` of an integer: a minus sign for negative values, then its digits. */
  function Render(v: int): (s: string)
    ensures |s| > 0
    ensures v < 0 <==> s[0] == '-'
  {
    if v < 0 then "-" + Digits(-v) else Digits(v)
  }

  /** The value of a run of digits with the given sign, if the type can hold it. */
  function SignedValue(t: Tag, digits: string, negative: bool): (r: Option<int>)
    ensures r.Some? ==> InRange(t, r.value)
    ensures r.Some? ==> AllDigits(digits) && |digits| > 0
  {
    if |digits| == 0 || !AllDigits(digits) then None
    else
      var v := if negative then -(DigitsValue(digits) as int) else DigitsValue(digits);
      if InRange(t, v) then Some(v) else None
  }

  /**
   * `FromStr` for an integer type. The empty string and a lone sign are
   * rejected; a leading `-` is a sign only for signed types (for an unsigned
   * type it is an invalid digit); any other character, or a value outside the
   * type's range, is rejected too.
   */
  function ParseInt(t: Tag, s: string): (r: Option<int>)
    requires !t.IsFloat()
    ensures r.Some? ==> InRange(t, r.value)
    ensures r.Some? && r.value < 0 ==> t.IsSigned() && |s| > 0 && s[0] == '-'
  {
    if |s| == 0 then None
    else if (s[0] == '+' || s[0] == '-') && |s| == 1 then None
    else if s[0] == '+' then SignedValue(t, s[1..], false)
    else if s[0] == '-' && t.IsSigned() then SignedValue(t, s[1..], true)
    else SignedValue(t, s, false)
  }

  /** Reading back the digits of a number gives the number. */
  lemma {:induction false} DigitsValueOfDigits(n: nat)
    ensures DigitsValue(Digits(n)) == n
  {
    if n >= 10 {
      DigitsValueOfDigits(n / 10);
      var s := Digits(n);
      assert s[..|s| - 1] == Digits(n / 10);
    }
  }

  /** Integers round-trip exactly through their text: `parse(render(v)) == v`. */
  lemma ParseRender(t: Tag, v: int)
    requires !t.IsFloat() && InRange(t, v)
    ensures ParseInt(t, Render(v)) == Some(v)
  {
    var s := Render(v);
    if v < 0 {
      DigitsValueOfDigits(-v);
      assert s[1..] == Digits(-v);
    } else {
      DigitsValueOfDigits(v);
      assert IsDigit(s[0]);
    }
  }

  /** Worked examples of what the integer parser accepts and rejects. */
  lemma ParseExamples()
    ensures ParseInt(U8, "") == None
    ensures ParseInt(U8, "+") == None
    ensures ParseInt(U8, "+007") == Some(7)
    ensures ParseInt(U8, "256") == None
    ensures ParseInt(U8, "-0") == None
    ensures ParseInt(I8, "-128") == Some(-128)
    ensures ParseInt(I32, "abc") == None
    ensures ParseInt(I32, " 1") == None
  {
    assert "+007"[1..] == "007";
    assert "007"[..2] == "00" && "00"[..1] == "0" && "0"[..0] == "";
    assert DigitsValue("007") == 7;
    assert "-128"[1..] == "128";
    assert "128"[..2] == "12" && "12"[..1] == "1";
    assert "256"[..2] == "25" && "25"[..1] == "2";
    assert !IsDigit('-') && !IsDigit('a') && !IsDigit(' ');
    assert Half(I8) == 128;
    assert Half(U8) == 128;
  }
}
