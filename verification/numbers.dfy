/** 32-bit signed integers (`i32`) and their decimal text form: `str::parse::<i32>` and `Display`. */
module Numbers {
  import opened Results

  /** The values of a 32-bit signed integer. */
  type i32 = x: int | -0x8000_0000 <= x <= 0x7FFF_FFFF

  predicate IsDigit(c: char) {
    '0' <= c <= '9'
  }

  predicate AllDigits(s: string) {
    forall i | 0 <= i < |s| :: IsDigit(s[i])
  }

  function DigitValue(c: char): (d: nat)
    requires IsDigit(c)
    ensures d < 10
  {
    c as int - '0' as int
  }

  function DigitChar(d: nat): (c: char)
    requires d < 10
    ensures IsDigit(c) && DigitValue(c) == d
  {
    ('0' as int + d) as char
  }

  /** The number written by a string of decimal digits, most significant first. */
  function DigitsValue(s: string): nat
    requires AllDigits(s)
    decreases |s|
  {
    if |s| == 0 then 0 else DigitsValue(s[..|s| - 1]) * 10 + DigitValue(s[|s| - 1])
  }

  /** `str::parse::<i32>`: an optional `+` or `-`, then at least one decimal
      digit, and a value that fits in 32 bits; anything else is rejected. */
  function ParseI32(s: string): (r: Option<i32>)
    ensures r.Some? ==> |s| > 0 && AllDigits(s[1..]) && (IsDigit(s[0]) || s[0] == '+' || s[0] == '-')
    ensures r.Some? && r.value < 0 ==> s[0] == '-'
    ensures r.Some? ==> |s| > 1 || IsDigit(s[0])
  {
    var negative := |s| > 0 && s[0] == '-';
    var digits := if |s| > 0 && (s[0] == '-' || s[0] == '+') then s[1..] else s;
    if |digits| == 0 || !AllDigits(digits) then None
    else
      var v: int := if negative then 0 - DigitsValue(digits) as int else DigitsValue(digits);
      if -0x8000_0000 <= v <= 0x7FFF_FFFF then Some(v) else None
  }

  /** Every signed digit string is read: an optional `+` or `-` (`+5`),
      then digits, leading zeros allowed (`007`); the value is kept exactly
      when it fits in 32 bits. */
  lemma {:induction false} ParseSignedDigits(sign: string, digits: string)
    requires sign == "" || sign == "+" || sign == "-"
    requires |digits| > 0 && AllDigits(digits)
    ensures var v := if sign == "-" then -(DigitsValue(digits) as int) else DigitsValue(digits) as int;
            ParseI32(sign + digits) == (if -0x8000_0000 <= v <= 0x7FFF_FFFF then Some(v) else None)
  {
    var s := sign + digits;
    if sign == "" {
      assert s == digits;
      assert IsDigit(s[0]);
    } else {
      assert s[0] == sign[0] && s[1..] == digits;
    }
  }

  /** Leading zeros do not change the value. */
  lemma {:induction false} LeadingZeroIgnored(digits: string)
    requires AllDigits(digits)
    ensures AllDigits("0" + digits) && DigitsValue("0" + digits) == DigitsValue(digits)
    decreases |digits|
  {
    var s := "0" + digits;
    if |digits| > 0 {
      assert s[..|s| - 1] == "0" + digits[..|digits| - 1];
      LeadingZeroIgnored(digits[..|digits| - 1]);
    }
  }

  /** An explicit sign is read: `+5` is 5 and `-0` is 0. */
  lemma SignedExamples()
    ensures ParseI32("+5") == Some(5)
    ensures ParseI32("-0") == Some(0)
  {
    assert "+5" == "+" + "5";
    ParseSignedDigits("+", "5");
    assert "-0" == "-" + "0";
    ParseSignedDigits("-", "0");
  }

  /** Leading zeros are read: `007` is 7. */
  lemma LeadingZerosExample()
    ensures ParseI32("007") == Some(7)
  {
    assert "" + "007" == "007";
    ParseSignedDigits("", "007");
    assert "007"[..2] == "00" && "00"[..1] == "0";
  }

  /** A sign needs digits after it, and only one sign is allowed. */
  lemma SignWithoutDigitsExample()
    ensures ParseI32("+") == None && ParseI32("-") == None && ParseI32("+-5") == None
  {
    assert !IsDigit("+-5"[1]);
  }

  /** The decimal digits of `n` without leading zeros, as `Display` writes them. */
  function NatToString(n: nat): (s: string)
    ensures |s| > 0 && AllDigits(s)
    ensures DigitsValue(s) == n
    ensures |s| > 1 ==> s[0] != '0'
    decreases n
  {
    if n < 10 then [DigitChar(n)]
    else
      var prefix := NatToString(n / 10);
      var s := prefix + [DigitChar(n % 10)];
      assert s[..|s| - 1] == prefix;
      s
  }

  /** `i32`'s `Display`: a minus sign for negative values, then the digits. */
  function I32ToString(n: i32): (s: string)
    ensures |s| > 0
    ensures s[0] == '-' <==> n < 0
  {
    if n < 0 then "-" + NatToString(-(n as int)) else NatToString(n)
  }

  /** Printing an `i32` and parsing it back gives the same value. */
  lemma {:induction false} ParseFormatRoundTrip(n: i32)
    ensures ParseI32(I32ToString(n)) == Some(n)
  {
    var s := I32ToString(n);
    if n < 0 {
      assert s[1..] == NatToString(-(n as int));
    } else {
      assert IsDigit(s[0]);
    }
  }
}
