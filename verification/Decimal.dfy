/** Decimal numbers as text: what a stream inserter prints and boost::lexical_cast reads. */
module Decimal {
  import opened Wrappers

  const TWO_31: int := 0x8000_0000
  const TWO_63: int := 0x8000_0000_0000_0000

  predicate IsDigit(c: char) {
    '0' <= c <= '9'
  }

  predicate AllDigits(s: string) {
    forall i :: 0 <= i < |s| ==> IsDigit(s[i])
  }

  function DigitValue(c: char): nat
    requires IsDigit(c)
  {
    c as int - '0' as int
  }

  function Digits(n: nat): (s: string)
    ensures s != "" && AllDigits(s)
  {
    var last := (n % 10 + '0' as int) as char;
    if n < 10 then [last] else Digits(n / 10) + [last]
  }

  function DigitsValue(s: string): nat
    requires AllDigits(s)
  {
    if s == "" then 0 else 10 * DigitsValue(s[..|s| - 1]) + DigitValue(s[|s| - 1])
  }

  function Print(n: int): (s: string)
    ensures s != ""
  {
    if n < 0 then "-" + Digits(-n) else Digits(n)
  }

  function ParseNat(s: string): Option<nat> {
    if s != "" && AllDigits(s) then Some(DigitsValue(s)) else None
  }

  function ParseSigned(s: string): Option<int> {
    if s == "" then None
    else if s[0] == '-' then
      match ParseNat(s[1..])
      case None => None
      case Some(n) => Some(0 - n as int)
    else ParseNat(if s[0] == '+' then s[1..] else s)
  }

  /** A signed 64-bit number, and nothing after it. */
  function ParseLong(s: string): (r: Option<int>)
    ensures r.Some? ==> -TWO_63 <= r.value < TWO_63
  {
    match ParseSigned(s)
    case None => None
    case Some(n) => if -TWO_63 <= n < TWO_63 then Some(n) else None
  }

  /** The low 32 bits of a number, as a signed 32-bit integer. */
  function Narrow(n: int): (r: int)
    ensures -0x8000_0000 <= r < 0x8000_0000 && (n - r) % 0x1_0000_0000 == 0
    ensures r == n <==> -TWO_31 <= n < TWO_31
  {
    (n + TWO_31) % (2 * TWO_31) - TWO_31
  }

  lemma {:induction false} DigitsParsed(n: nat)
    ensures DigitsValue(Digits(n)) == n
  {
    if n >= 10 {
      DigitsParsed(n / 10);
      assert Digits(n)[..|Digits(n)| - 1] == Digits(n / 10);
    }
  }

  lemma PrintedIsParsed(n: int)
    requires -TWO_63 <= n < TWO_63
    ensures ParseLong(Print(n)) == Some(n)
  {
    if n < 0 {
      DigitsParsed(-n);
      assert Print(n)[1..] == Digits(-n);
    } else {
      DigitsParsed(n);
      assert IsDigit(Print(n)[0]);
    }
  }

  /** Digits are decimal, the highest first. */
  lemma DigitsInText()
    ensures Print(1_234_567_890) == "1234567890" && Print(-7) == "-7" && Print(0) == "0"
    ensures TWO_31 == 2_147_483_648 && TWO_63 == 9_223_372_036_854_775_808
  {
    assert Digits(1) == "1";
    assert Digits(12) == "12";
    assert Digits(123) == "123";
    assert Digits(1_234) == "1234";
    assert Digits(12_345) == "12345";
    assert Digits(123_456) == "123456";
    assert Digits(1_234_567) == "1234567";
    assert Digits(12_345_678) == "12345678";
    assert Digits(123_456_789) == "123456789";
  }

  /** A number is a sign or none and some digits, leading zeros included, and nothing else. */
  lemma NumbersAsText(s: string)
    ensures var digits := if s != "" && (s[0] == '-' || s[0] == '+') then s[1..] else s;
            if digits == "" || !AllDigits(digits) then ParseLong(s) == None
            else
              var n := if s[0] == '-' then 0 - DigitsValue(digits) as int else DigitsValue(digits);
              ParseLong(s) == if -9_223_372_036_854_775_808 <= n <= 9_223_372_036_854_775_807 then Some(n) else None
  {
  }

  lemma {:induction false} LeadingZero(s: string)
    requires AllDigits(s)
    ensures AllDigits("0" + s) && DigitsValue("0" + s) == DigitsValue(s)
  {
    if s == "" {
      assert "0" + s == "0";
      assert DigitsValue("0") == 10 * DigitsValue("") + DigitValue('0');
    } else {
      LeadingZero(s[..|s| - 1]);
      assert ("0" + s)[..|s|] == "0" + s[..|s| - 1];
    }
  }
}
