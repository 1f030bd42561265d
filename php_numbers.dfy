/**
 * PHP 8's reading of numeric strings: is_numeric, the numeric value of a
 * numeric string, the (int) and (float) casts (which read the longest numeric
 * prefix) and the loose comparison `==` between two strings. Floating point
 * values are modelled as exact reals.
 */
module PhpNumbers {
  import opened PhpStrings

  /** Whitespace PHP allows around a numeric string: space, \t, \n, \r, \v, \f. */
  predicate IsNumericSpace(c: char) {
    c == ' ' || c == '\t' || c == '\n' || c == '\r' || c == '\U{0B}' || c == '\U{0C}'
  }

  function SpaceRun(s: string, i: nat): (n: nat)
    requires i <= |s|
    ensures i + n <= |s|
    ensures forall j :: i <= j < i + n ==> IsNumericSpace(s[j])
    ensures i + n == |s| || !IsNumericSpace(s[i + n])
    decreases |s| - i
  {
    if i < |s| && IsNumericSpace(s[i]) then 1 + SpaceRun(s, i + 1) else 0
  }

  function DigitRun(s: string, i: nat): (n: nat)
    requires i <= |s|
    ensures i + n <= |s|
    ensures forall j :: i <= j < i + n ==> IsDigit(s[j])
    ensures AllDigits(s[i..i + n])
    ensures i + n == |s| || !IsDigit(s[i + n])
    decreases |s| - i
  {
    if i < |s| && IsDigit(s[i]) then 1 + DigitRun(s, i + 1) else 0
  }

  /**
   * The longest numeric prefix of a text: optional whitespace, an optional
   * sign, digits with an optional decimal point, and an exponent that counts
   * only when at least one digit follows the `e`.
   */
  datatype Scan = Scan(negative: bool, whole: string, fraction: string, exponent: int, end: nat)

  /** Digits before and after an optional decimal point, starting at `b`; `end` is the index after them. */
  datatype Mantissa = Mantissa(whole: string, fraction: string, end: nat)

  function ScanMantissa(s: string, b: nat): (m: Mantissa)
    requires b <= |s|
    ensures b <= m.end <= |s|
    ensures AllDigits(m.whole) && AllDigits(m.fraction)
    ensures |m.whole| + |m.fraction| <= m.end - b
  {
    var w := DigitRun(s, b);
    var c := b + w;
    if c < |s| && s[c] == '.' then
      var f := DigitRun(s, c + 1);
      Mantissa(s[b..c], s[c + 1..c + 1 + f], c + 1 + f)
    else
      Mantissa(s[b..c], "", c)
  }

  /** An exponent at `d`: `e` or `E`, an optional sign, then at least one digit; `end` stays at `d` otherwise. */
  function ScanExponent(s: string, d: nat): (r: (int, nat))
    requires d <= |s|
    ensures d <= r.1 <= |s|
  {
    if d < |s| && (s[d] == 'e' || s[d] == 'E') then
      var signed := d + 1 < |s| && (s[d + 1] == '+' || s[d + 1] == '-');
      var ds := if signed then d + 2 else d + 1;
      var ed := DigitRun(s, ds);
      if ed == 0 then (0, d)
      else
        var v: int := DigitsValue(s[ds..ds + ed]);
        (if signed && s[d + 1] == '-' then -v else v, ds + ed)
    else (0, d)
  }

  function ScanNumber(s: string): (r: Scan)
    ensures r.end <= |s|
    ensures AllDigits(r.whole) && AllDigits(r.fraction)
  {
    var a := SpaceRun(s, 0);
    var signed := a < |s| && (s[a] == '+' || s[a] == '-');
    var m := ScanMantissa(s, if signed then a + 1 else a);
    if |m.whole| + |m.fraction| == 0 then Scan(signed && s[a] == '-', "", "", 0, 0)
    else
      var e := ScanExponent(s, m.end);
      Scan(signed && s[a] == '-', m.whole, m.fraction, e.0, e.1)
  }

  /** The text starts with a number (a digit before or after the decimal point). */
  predicate HasNumber(s: string) {
    var r := ScanNumber(s);
    |r.whole| + |r.fraction| > 0
  }

  /** is_numeric: a number, with only whitespace around it. */
  predicate IsNumeric(s: string) {
    HasNumber(s) && ScanNumber(s).end + SpaceRun(s, ScanNumber(s).end) == |s|
  }

  function Pow10(n: nat): (p: nat)
    ensures p >= 1
  {
    if n == 0 then 1 else 10 * Pow10(n - 1)
  }

  function ScaleBy(x: real, e: int): real {
    if e >= 0 then x * Pow10(e) as real else x / Pow10(-e) as real
  }

  /** Value of the numeric prefix; 0 when the text does not start with a number. */
  function PrefixValue(s: string): real {
    ScanValue(ScanNumber(s))
  }

  /** The number a scan denotes. */
  function ScanValue(r: Scan): real {
    var mantissa := DigitsValue(r.whole) as real + DigitsValue(r.fraction) as real / Pow10(|r.fraction|) as real;
    var magnitude := ScaleBy(mantissa, r.exponent);
    if r.negative then -magnitude else magnitude
  }

  /** (float) $s: the value of the numeric prefix. */
  function FloatCast(s: string): real {
    PrefixValue(s)
  }

  /** (int) $s: the value of the numeric prefix, truncated toward zero. */
  function IntCast(s: string): int {
    var x := PrefixValue(s);
    if x >= 0.0 then x.Floor else -((-x).Floor)
  }

  /** $a == $b for two strings: numerically when both are numeric, otherwise byte for byte. */
  predicate LooseEqualStrings(a: string, b: string) {
    if IsNumeric(a) && IsNumeric(b) then PrefixValue(a) == PrefixValue(b) else a == b
  }

  /** A text that starts with a letter holds no number. */
  lemma LetterStartNotNumeric(s: string)
    requires |s| > 0 && 'a' <= s[0] <= 'z'
    ensures !HasNumber(s) && !IsNumeric(s)
  {
    assert SpaceRun(s, 0) == 0;
    assert DigitRun(s, 0) == 0;
  }

  lemma {:induction false} DigitRunToEnd(s: string, i: nat)
    requires i <= |s|
    requires forall j :: i <= j < |s| ==> IsDigit(s[j])
    ensures DigitRun(s, i) == |s| - i
    decreases |s| - i
  {
    if i < |s| {
      DigitRunToEnd(s, i + 1);
    }
  }

  /** A mantissa of digits only, running to the end of the text. */
  lemma DigitsMantissa(s: string, b: nat)
    requires b < |s| && forall j :: b <= j < |s| ==> IsDigit(s[j])
    ensures ScanMantissa(s, b) == Mantissa(s[b..], "", |s|)
  {
    DigitRunToEnd(s, b);
    assert s[b..b + (|s| - b)] == s[b..];
  }

  /** Nothing is scanned at the end of a text. */
  lemma ScanAtEnd(s: string)
    ensures ScanExponent(s, |s|) == (0, |s|) && SpaceRun(s, |s|) == 0
  {
  }

  /** The value of a scanned whole number without fraction or exponent. */
  lemma WholeValue(negative: bool, d: string, end: nat)
    ensures ScanValue(Scan(negative, d, "", 0, end)) == if negative then -(DigitsValue(d) as real) else DigitsValue(d) as real
  {
    var r := Scan(negative, d, "", 0, end);
    assert DigitsValue(r.fraction) == 0 && Pow10(|r.fraction|) == 1;
    var mantissa := DigitsValue(r.whole) as real + DigitsValue(r.fraction) as real / Pow10(|r.fraction|) as real;
    assert mantissa == DigitsValue(d) as real;
    assert ScaleBy(mantissa, r.exponent) == mantissa;
  }

  /** A text that is only digits is numeric and denotes the number its digits spell. */
  lemma DigitsAreNumeric(s: string)
    requires |s| > 0 && AllDigits(s)
    ensures IsNumeric(s) && PrefixValue(s) == DigitsValue(s) as real
  {
    assert !IsNumericSpace(s[0]) && s[0] != '+' && s[0] != '-';
    assert SpaceRun(s, 0) == 0;
    DigitsMantissa(s, 0);
    assert s[0..] == s;
    ScanAtEnd(s);
    assert ScanNumber(s) == Scan(false, s, "", 0, |s|);
    WholeValue(false, s, |s|);
  }

  /** The decimal rendering of an integer is numeric, and (int) and (float) read the integer back. */
  lemma IntToStringNumeric(n: int)
    ensures IsNumeric(IntToString(n))
    ensures PrefixValue(IntToString(n)) == n as real
    ensures IntCast(IntToString(n)) == n
  {
    var s := IntToString(n);
    var m: nat := if n < 0 then -n else n;
    var d := NatToString(m);
    NatToStringValue(m);
    if n < 0 {
      assert s == "-" + d;
      assert !IsNumericSpace(s[0]);
      assert SpaceRun(s, 0) == 0;
      DigitsMantissa(s, 1);
      assert s[1..] == d;
      ScanAtEnd(s);
      assert ScanNumber(s) == Scan(true, d, "", 0, |s|);
      WholeValue(true, d, |s|);
    } else {
      DigitsAreNumeric(d);
    }
  }
}
