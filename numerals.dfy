/**
 * Text forms of the numbers a fraction is read from and written to.
 *
 * Parsing follows the default rules of .NET's double.TryParse for the
 * numerals this model admits: optional surrounding white space, an optional
 * sign, decimal digits with an optional decimal point, and at least one
 * digit. The fraction digits are kept so that a caller can tell an
 * integral numeral ("4" or "4.00") from one that is not ("4.5").
 *
 * Formatting writes an integer the way "{0}" renders an integral double:
 * a minus sign for negative values followed by the decimal digits.
 */
module Numerals {

  datatype Option<+T> = None | Some(value: T)

  /** A numeral as read from text: its sign, its integer part and the digits after the point. */
  datatype Numeral = Numeral(negative: bool, whole: nat, fraction: string)

  /** The characters .NET skips as leading or trailing white space: tab to carriage return, and space. */
  predicate IsWhite(c: char)
  {
    c == ' ' || '\t' <= c <= '\r'
  }

  predicate IsDigit(c: char)
  {
    '0' <= c <= '9'
  }

  predicate AllDigits(s: string)
  {
    forall i | 0 <= i < |s| :: IsDigit(s[i])
  }

  function DigitValue(c: char): (v: nat)
    requires IsDigit(c)
    ensures v < 10
  {
    c as int - '0' as int
  }

  function DigitChar(v: nat): (c: char)
    requires v < 10
    ensures IsDigit(c) && DigitValue(c) == v
  {
    ('0' as int + v) as char
  }

  /** The value of a string of decimal digits, most significant first; "" is 0. */
  function DigitsValue(s: string): (v: nat)
    requires AllDigits(s)
  {
    if s == [] then 0 else DigitsValue(s[..|s| - 1]) * 10 + DigitValue(s[|s| - 1])
  }

  /** The decimal digits of a natural number, without leading zeros. */
  function NatToString(n: nat): (s: string)
    ensures |s| > 0 && AllDigits(s)
  {
    if n < 10 then [DigitChar(n)] else NatToString(n / 10) + [DigitChar(n % 10)]
  }

  /** An integer as "{0}" formats an integral double. */
  function IntToString(x: int): (s: string)
  {
    if x < 0 then "-" + NatToString(-x) else NatToString(x)
  }

  /** s without its leading white space. */
  function TrimStart(s: string): (t: string)
    ensures |t| <= |s| && t == s[|s| - |t|..]
    ensures |t| > 0 ==> !IsWhite(t[0])
    ensures forall i | 0 <= i < |s| - |t| :: IsWhite(s[i])
  {
    if |s| > 0 && IsWhite(s[0]) then TrimStart(s[1..]) else s
  }

  /** s without its trailing white space. */
  function TrimEnd(s: string): (t: string)
    ensures |t| <= |s| && t == s[..|t|]
    ensures |t| > 0 ==> !IsWhite(t[|t| - 1])
    ensures forall i | |t| <= i < |s| :: IsWhite(s[i])
  {
    if |s| > 0 && IsWhite(s[|s| - 1]) then TrimEnd(s[..|s| - 1]) else s
  }

  /** Index of the first '.' in s, or |s| when there is none. */
  function DotIndex(s: string): (k: nat)
    ensures k <= |s|
    ensures k < |s| ==> s[k] == '.'
    ensures forall i | 0 <= i < k :: s[i] != '.'
  {
    if s == [] then 0 else if s[0] == '.' then 0 else 1 + DotIndex(s[1..])
  }

  /**
   * Reads a numeral: white space, an optional '-' or '+', integer digits,
   * optionally '.' and fraction digits, white space; at least one digit.
   */
  function ParseNumeral(s: string): (r: Option<Numeral>)
  {
    var t := TrimEnd(TrimStart(s));
    if |t| > 0 && (t[0] == '-' || t[0] == '+') then ParseUnsigned(t[1..], t[0] == '-')
    else ParseUnsigned(t, false)
  }

  /** Reads the part after the sign: integer digits, optionally '.' and fraction digits. */
  function ParseUnsigned(body: string, negative: bool): (r: Option<Numeral>)
    ensures r.Some? ==> r.value.negative == negative && AllDigits(r.value.fraction)
  {
    var k := DotIndex(body);
    var whole := body[..k];
    var fraction := if k < |body| then body[k + 1..] else "";
    if AllDigits(whole) && AllDigits(fraction) && |whole| + |fraction| > 0 then
      Some(Numeral(negative, DigitsValue(whole), fraction))
    else
      None
  }

  /** A numeral denotes an integer when every digit after its point is zero. */
  predicate IsIntegral(x: Numeral)
  {
    forall i | 0 <= i < |x.fraction| :: x.fraction[i] == '0'
  }

  /** The integer an integral numeral denotes ("-0" is 0). */
  function IntegerValue(x: Numeral): (v: int)
  {
    if x.negative then -(x.whole as int) else x.whole
  }

  // ---------------------------------------------------------------------
  // Round trip: formatting an integer and reading it back gives it again
  // ---------------------------------------------------------------------

  lemma {:induction false} DigitsValueOfNatToString(n: nat)
    ensures DigitsValue(NatToString(n)) == n
  {
    if n >= 10 {
      var s := NatToString(n);
      var prefix := NatToString(n / 10);
      assert s == prefix + [DigitChar(n % 10)];
      assert s[..|s| - 1] == prefix;
      DigitsValueOfNatToString(n / 10);
    }
  }

  lemma TrimOfDigitEnds(s: string)
    requires |s| > 0 && !IsWhite(s[0]) && !IsWhite(s[|s| - 1])
    ensures TrimEnd(TrimStart(s)) == s
  {
  }

  /** Every integer reads back from its own text as an integral numeral of the same value. */
  lemma ParseIntToString(x: int)
    ensures ParseNumeral(IntToString(x)).Some?
    ensures var v := ParseNumeral(IntToString(x)).value; IsIntegral(v) && IntegerValue(v) == x
  {
    var v: Numeral;
    if x < 0 {
      ParseDigitsWithSign(NatToString(-x), true);
      DigitsValueOfNatToString(-x);
      v := Numeral(true, -x, "");
    } else {
      ParseDigitsWithSign(NatToString(x), false);
      DigitsValueOfNatToString(x);
      v := Numeral(false, x, "");
    }
    assert ParseNumeral(IntToString(x)) == Some(v);
    assert IsIntegral(v) && IntegerValue(v) == x;
  }

  /** A nonempty run of digits reads as their value, with no fraction digits. */
  lemma ParseUnsignedDigits(digits: string, negative: bool)
    requires |digits| > 0 && AllDigits(digits)
    ensures ParseUnsigned(digits, negative) == Some(Numeral(negative, DigitsValue(digits), ""))
  {
    assert forall i | 0 <= i < |digits| :: digits[i] != '.';
    assert DotIndex(digits) == |digits|;
    assert digits[..|digits|] == digits;
  }

  /** A run of digits, with or without a leading '-', reads as those digits. */
  lemma ParseDigitsWithSign(digits: string, negative: bool)
    requires |digits| > 0 && AllDigits(digits)
    ensures var s := if negative then "-" + digits else digits;
      ParseNumeral(s) == Some(Numeral(negative, DigitsValue(digits), ""))
  {
    var s := if negative then "-" + digits else digits;
    assert IsDigit(digits[|digits| - 1]);
    assert s[|s| - 1] == digits[|digits| - 1];
    assert IsDigit(s[0]) || s[0] == '-';
    TrimOfDigitEnds(s);
    ParseUnsignedDigits(digits, negative);
    if negative {
      assert s[1..] == digits;
    }
  }

  /** Formatted integers hold no '/' (so a fraction's two halves can be split apart again). */
  lemma IntToStringHasNoSlash(x: int)
    ensures '/' !in IntToString(x)
    ensures |IntToString(x)| > 0
  {
    var digits := if x < 0 then NatToString(-x) else NatToString(x);
    assert forall i | 0 <= i < |digits| :: digits[i] != '/';
  }

  /** A lone digit reads as that digit's value. */
  lemma ParseSingleDigit(c: char)
    requires IsDigit(c)
    ensures ParseNumeral([c]) == Some(Numeral(false, DigitValue(c), ""))
    ensures '/' !in [c]
  {
    var s := [c];
    assert TrimEnd(TrimStart(s)) == s;
    assert DotIndex(s) == 1;
    assert s[..1] == s;
    assert DigitsValue(s) == DigitsValue([]) * 10 + DigitValue(c);
  }

  /** Surrounding white space is skipped and a leading '-' makes the numeral negative. */
  lemma ParsePaddedNegative()
    ensures ParseNumeral(" -6 ") == Some(Numeral(true, 6, ""))
  {
    assert TrimStart(" -6 ") == "-6 ";
    assert TrimEnd("-6 ") == "-6";
    assert "-6"[1..] == "6";
    ParseSingleDigit('6');
  }

  lemma ParsePaddedPositive()
    ensures ParseNumeral(" 8 ") == Some(Numeral(false, 8, ""))
  {
    assert TrimStart(" 8 ") == "8 ";
    assert TrimEnd("8 ") == "8";
    ParseSingleDigit('8');
  }

  /** The digits after a decimal point are kept apart from the integer part. */
  lemma ParseZeroFraction()
    ensures ParseNumeral("4.0") == Some(Numeral(false, 4, "0"))
    ensures IsIntegral(Numeral(false, 4, "0")) && '/' !in "4.0"
  {
    TrimOfDigitEnds("4.0");
    assert DotIndex("4.0") == 1;
    assert "4.0"[..1] == "4" && "4.0"[2..] == "0";
    assert DigitsValue("4") == 4;
  }

  lemma ParseNonzeroFraction()
    ensures ParseNumeral("1.5") == Some(Numeral(false, 1, "5"))
    ensures !IsIntegral(Numeral(false, 1, "5")) && '/' !in "1.5"
  {
    TrimOfDigitEnds("1.5");
    assert DotIndex("1.5") == 1;
    assert "1.5"[..1] == "1" && "1.5"[2..] == "5";
    assert DigitsValue("1") == 1;
  }
}
