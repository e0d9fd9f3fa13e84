/**
 * The text forms the client gives its parameters: `Integer.toString` for
 * `int` (base 10, a leading `-` for negatives, no leading zeros) and
 * `Boolean.toString` (`"true"` / `"false"`). Each rendering has a parser
 * beside it that accepts exactly the strings the rendering produces.
 */
module JavaText {
  import opened Wrappers
  import opened JavaInt

  predicate IsDigit(c: char) { '0' <= c <= '9' }

  predicate AllDigits(s: string) { forall i :: 0 <= i < |s| ==> IsDigit(s[i]) }

  /** A non-empty digit string without a leading zero, unless it is "0" itself. */
  predicate Canonical(s: string) { |s| >= 1 && AllDigits(s) && (s[0] == '0' ==> |s| == 1) }

  function DigitChar(d: int): (c: char)
    requires 0 <= d < 10
    ensures IsDigit(c) && c as int - '0' as int == d
  {
    ('0' as int + d) as char
  }

  /** The number a digit string denotes in base 10. */
  function DigitsValue(s: string): nat
    requires AllDigits(s)
  {
    if s == [] then 0 else DigitsValue(s[..|s| - 1]) * 10 + (s[|s| - 1] as int - '0' as int)
  }

  /** Base-10 digits of a natural number. */
  function NatToDecimal(n: nat): (s: string)
    ensures Canonical(s) && DigitsValue(s) == n
  {
    if n < 10 then [DigitChar(n)]
    else
      var prefix := NatToDecimal(n / 10);
      var s := prefix + [DigitChar(n % 10)];
      assert s[..|s| - 1] == prefix;
      s
  }

  /** `Integer.toString(i)`. */
  function IntToDecimal(i: int): (s: string)
    ensures ParseDecimal(s) == Some(i)
  {
    if i < 0 then "-" + NatToDecimal(-i) else NatToDecimal(i)
  }

  /** Reads back a string of the form `Integer.toString` produces; None for any other string. */
  function ParseDecimal(s: string): Option<int> {
    if |s| >= 1 && s[0] == '-' then
      var digits := s[1..];
      if Canonical(digits) && digits != "0" then Some(-(DigitsValue(digits) as int)) else None
    else if Canonical(s) then Some(DigitsValue(s) as int)
    else None
  }

  /** ParseDecimal restricted to the values of a Java `int`. */
  function ParseInt32(s: string): (r: Option<Int32>)
    ensures r.Some? <==> ParseDecimal(s).Some? && MinInt <= ParseDecimal(s).value <= MaxInt
    ensures r.Some? ==> ParseDecimal(s) == Some(r.value as int)
  {
    match ParseDecimal(s)
    case Some(v) => if MinInt <= v <= MaxInt then Some(v as Int32) else None
    case None => None
  }

  /** A canonical digit string whose first digit is not zero denotes at least 1. */
  lemma {:induction false} LeadingDigitPositive(s: string)
    requires |s| >= 1 && AllDigits(s) && s[0] != '0'
    ensures DigitsValue(s) >= 1
  {
    if |s| > 1 {
      LeadingDigitPositive(s[..|s| - 1]);
    }
  }

  /** A canonical digit string is the decimal form of the number it denotes. */
  lemma {:induction false} CanonicalIsDecimal(s: string)
    requires Canonical(s)
    ensures NatToDecimal(DigitsValue(s)) == s
  {
    var n := DigitsValue(s);
    if |s| > 1 {
      var prefix := s[..|s| - 1];
      assert prefix[0] == s[0];
      LeadingDigitPositive(prefix);
      CanonicalIsDecimal(prefix);
      assert n / 10 == DigitsValue(prefix);
      assert n % 10 == s[|s| - 1] as int - '0' as int;
      assert NatToDecimal(n) == prefix + [s[|s| - 1]];
    }
  }

  /** The decimal form is unique: ParseDecimal accepts a string exactly when it is the rendering of its value. */
  lemma DecimalUnique(s: string, i: int)
    ensures ParseDecimal(s) == Some(i) <==> s == IntToDecimal(i)
  {
    if ParseDecimal(s) == Some(i) {
      if |s| >= 1 && s[0] == '-' {
        CanonicalIsDecimal(s[1..]);
        assert s == "-" + s[1..];
      } else {
        CanonicalIsDecimal(s);
      }
    }
  }

  /** The `int` reader accepts exactly the `Integer.toString` rendering of a Java `int`, and no other string. */
  lemma ParseInt32Inverse(s: string, i: Int32)
    ensures ParseInt32(s) == Some(i) <==> s == IntToDecimal(i)
  {
    DecimalUnique(s, i);
  }

  /** Distinct integers get distinct decimal forms. */
  lemma DecimalInjective(i: int, j: int)
    requires IntToDecimal(i) == IntToDecimal(j)
    ensures i == j
  {
  }

  lemma DecimalExamples()
    ensures IntToDecimal(90) == "90" && IntToDecimal(50) == "50" && IntToDecimal(5) == "5"
    ensures IntToDecimal(-45) == "-45" && IntToDecimal(20) == "20"
  {
    assert NatToDecimal(9) == "9";
    assert NatToDecimal(4) == "4";
    assert NatToDecimal(2) == "2";
  }

  /** `Boolean.toString(b)`. */
  function BoolToString(b: bool): (s: string)
    ensures ParseBool(s) == Some(b)
    ensures s == "true" || s == "false"
  {
    if b then "true" else "false"
  }

  /** Reads back exactly the two literals `Boolean.toString` produces (lower case, nothing else). */
  function ParseBool(s: string): Option<bool> {
    if s == "true" then Some(true) else if s == "false" then Some(false) else None
  }
}
