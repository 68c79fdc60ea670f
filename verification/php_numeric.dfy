/**
 * PHP 8 numeric strings and the conversions built on them: is_numeric(),
 * the (int) cast, loose `==` and `<` between strings, round() and
 * number_format() with two decimals, and how PHP prints a hundredth-valued
 * number. Values are exact rationals (`real`); binary floating point is not
 * modelled.
 */
module PhpNumeric {
  import opened Wrappers
  import opened PhpStrings

  const VerticalTab: char := 11 as char
  const FormFeed: char := 12 as char

  /** The whitespace PHP accepts around a numeric string. */
  predicate IsSpace(c: char) {
    c == ' ' || c == '\t' || c == '\n' || c == '\r' || c == VerticalTab || c == FormFeed
  }

  predicate AllSpaces(s: string) {
    forall i :: 0 <= i < |s| ==> IsSpace(s[i])
  }

  /** Length of the leading run of whitespace. */
  function SpaceSpan(s: string): (n: nat)
    ensures n <= |s| && AllSpaces(s[..n])
    ensures n < |s| ==> !IsSpace(s[n])
  {
    if |s| == 0 || !IsSpace(s[0]) then 0
    else
      var m := SpaceSpan(s[1..]);
      assert s[..1 + m] == [s[0]] + s[1..][..m];
      1 + m
  }

  /** Length of the leading run of decimal digits. */
  function DigitSpan(s: string): (n: nat)
    ensures n <= |s| && AllDigits(s[..n])
    ensures n < |s| ==> !IsDigit(s[n])
  {
    if |s| == 0 || !IsDigit(s[0]) then 0
    else
      var m := DigitSpan(s[1..]);
      assert s[..1 + m] == [s[0]] + s[1..][..m];
      1 + m
  }

  /** The digit run of `a + b` is exactly `a` when `b` does not start with a digit. */
  lemma {:induction false} DigitSpanOf(a: string, b: string)
    requires AllDigits(a)
    requires |b| == 0 || !IsDigit(b[0])
    ensures DigitSpan(a + b) == |a|
  {
    if |a| > 0 {
      assert (a + b)[1..] == a[1..] + b;
      DigitSpanOf(a[1..], b);
    } else {
      assert a + b == b;
    }
  }

  /**
   * A decimal literal: sign, the value of the whole digits, the value and the
   * number of the fraction digits, and the exponent.
   */
  datatype Literal = Literal(negative: bool, whole: nat, fraction: nat, fractionDigits: nat, exponent: int)

  function Pow10(e: nat): (r: nat)
    ensures r >= 1
  {
    if e == 0 then 1 else 10 * Pow10(e - 1)
  }

  /** 10 raised to an integer power. */
  function Scale(e: int): (r: real)
    ensures r > 0.0
  {
    if e >= 0 then Pow10(e) as real else 1.0 / Pow10(-e) as real
  }

  function Signed(negative: bool, x: real): real {
    if negative then -x else x
  }

  /** The value of `digits` fraction digits that read as the integer `value`. */
  function Fraction(value: nat, digits: nat): real {
    value as real / Pow10(digits) as real
  }

  function LiteralValue(l: Literal): real {
    Signed(l.negative, (l.whole as real + Fraction(l.fraction, l.fractionDigits)) * Scale(l.exponent))
  }

  /** An exponent part `e`/`E`, optional sign, at least one digit: its value and length (0 when absent). */
  function ScanExponent(u: string): (r: (int, nat))
    ensures r.1 <= |u|
    ensures r.1 == 0 ==> r.0 == 0
  {
    if |u| >= 2 && (u[0] == 'e' || u[0] == 'E') then
      var signLen := if u[1] == '+' || u[1] == '-' then 1 else 0;
      var digits := u[1 + signLen..];
      var d := DigitSpan(digits);
      if d == 0 then (0, 0)
      else
        var magnitude: int := DigitsValue(digits[..d]);
        (if signLen == 1 && u[1] == '-' then -magnitude else magnitude, 1 + signLen + d)
    else (0, 0)
  }

  /**
   * The longest prefix of t that is an unsigned PHP number literal
   * `(digits ('.' digits?)? | '.' digits) exponent?`, with its length.
   */
  function ScanUnsigned(t: string): (r: Option<(Literal, nat)>)
    ensures r.Some? ==> 0 < r.value.1 <= |t| && !r.value.0.negative
  {
    var w := DigitSpan(t);
    var whole := DigitsValue(t[..w]);
    if w < |t| && t[w] == '.' then
      var f := DigitSpan(t[w + 1..]);
      if w + f == 0 then None
      else WithExponent(whole, DigitsValue(t[w + 1..][..f]), f, t, w + 1 + f)
    else if w == 0 then None
    else WithExponent(whole, 0, 0, t, w)
  }

  /** A mantissa ending at position `end` of t, followed by an optional exponent. */
  function WithExponent(whole: nat, fraction: nat, digits: nat, t: string, end: nat): (r: Option<(Literal, nat)>)
    requires end <= |t|
    ensures r.Some? && r.value.1 >= end && r.value.1 <= |t| && !r.value.0.negative
  {
    var exponent := ScanExponent(t[end..]);
    Some((Literal(false, whole, fraction, digits, exponent.0), end + exponent.1))
  }

  /** A mantissa that runs to the end of the text has no exponent. */
  lemma WithExponentAtEnd(whole: nat, fraction: nat, digits: nat, t: string)
    ensures WithExponent(whole, fraction, digits, t, |t|) == Some((Literal(false, whole, fraction, digits, 0), |t|))
  {
    assert t[|t|..] == "";
  }

  /** The longest prefix of s that is a PHP number literal with an optional sign, with its length. */
  function ScanLiteral(s: string): (r: Option<(Literal, nat)>)
    ensures r.Some? ==> 0 < r.value.1 <= |s|
  {
    if |s| > 0 && (s[0] == '+' || s[0] == '-') then
      match ScanUnsigned(s[1..])
      case None => None
      case Some((literal, len)) => Some((literal.(negative := s[0] == '-'), 1 + len))
    else ScanUnsigned(s)
  }

  /** The literal a numeric string consists of: optional whitespace, one literal, optional whitespace. */
  function NumericLiteral(s: string): Option<Literal> {
    var lead := SpaceSpan(s);
    match ScanLiteral(s[lead..])
    case None => None
    case Some((literal, len)) => if AllSpaces(s[lead + len..]) then Some(literal) else None
  }

  /** The literal at the start of s after optional whitespace, whatever follows it. */
  function LeadingLiteral(s: string): Option<Literal> {
    var lead := SpaceSpan(s);
    match ScanLiteral(s[lead..])
    case None => None
    case Some((literal, _)) => Some(literal)
  }

  /** is_numeric() and the value PHP 8 reads from a numeric string. */
  function ParseNumeric(s: string): Option<real> {
    match NumericLiteral(s)
    case None => None
    case Some(literal) => Some(LiteralValue(literal))
  }

  predicate IsNumeric(s: string) {
    NumericLiteral(s).Some?
  }

  /** The value of the leading numeric prefix, trailing text ignored, as PHP's casts read it. */
  function LeadingNumber(s: string): Option<real> {
    match LeadingLiteral(s)
    case None => None
    case Some(literal) => Some(LiteralValue(literal))
  }

  /** A numeric string reads the same way under a cast as under is_numeric(). */
  lemma NumericLeads(s: string)
    ensures IsNumeric(s) ==> LeadingNumber(s) == ParseNumeric(s)
  {
  }

  function TruncateTowardZero(x: real): (r: int)
    ensures x >= 0.0 ==> 0 <= r && r as real <= x < r as real + 1.0
    ensures x < 0.0 ==> r <= 0 && r as real - 1.0 < x <= r as real
  {
    if x >= 0.0 then x.Floor else -((-x).Floor)
  }

  /** The range of a 64-bit PHP integer. */
  const MaxLong: int := 0x7FFF_FFFF_FFFF_FFFF
  const MinLong: int := -0x8000_0000_0000_0000

  /** 2^64. */
  const Word: int := 0x1_0000_0000_0000_0000

  /**
   * The smallest magnitude a decimal number rounds to infinity as a double:
   * DBL_MAX plus half a unit in its last place, (2^54 - 1) * 2^970, where
   * 2^970 is 2^10 * (2^64)^15.
   */
  const DoubleOverflow: int :=
    0x3F_FFFF_FFFF_FFFF * 0x400 * Word * Word * Word * Word * Word * Word * Word * Word * Word * Word * Word * Word
    * Word * Word * Word

  /** A value forced into the 64-bit range, as zend_dval_to_lval_cap() saturates. */
  function CapLong(n: int): (r: int)
    ensures MinLong <= r <= MaxLong
    ensures MinLong <= n <= MaxLong ==> r == n
    ensures n > MaxLong ==> r == MaxLong
    ensures n < MinLong ==> r == MinLong
  {
    if n > MaxLong then MaxLong else if n < MinLong then MinLong else n
  }

  /**
   * PHP's (int) cast of a string: the leading number truncated toward zero,
   * or 0 when there is none. A number beyond the 64-bit range saturates at
   * its end; one too large for a double reads as infinity and casts to 0.
   */
  function IntCast(s: string): (r: int)
    ensures MinLong <= r <= MaxLong
    ensures LeadingNumber(s).None? ==> r == 0
  {
    match LeadingNumber(s)
    case None => 0
    case Some(v) =>
      if v >= DoubleOverflow as real || v <= -DoubleOverflow as real then 0
      else CapLong(TruncateTowardZero(v))
  }

  /** PHP 8 `==` between strings: numerically when both are numeric, otherwise byte for byte. */
  predicate LooseEquals(a: string, b: string) {
    match (ParseNumeric(a), ParseNumeric(b))
    case (Some(x), Some(y)) => x == y
    case _ => a == b
  }

  /** PHP 8 `<` between strings: numerically when both are numeric, otherwise as strcmp orders them. */
  predicate LooseLess(a: string, b: string) {
    match (ParseNumeric(a), ParseNumeric(b))
    case (Some(x), Some(y)) => x < y
    case _ => LexLess(a, b)
  }

  /** PHP's round() to an integer: the nearest integer, halves away from zero. */
  function RoundHalfAwayFromZero(x: real): (r: int)
    ensures x >= 0.0 ==> r >= 0 && r as real - 0.5 <= x < r as real + 0.5
    ensures x < 0.0 ==> r <= 0 && r as real - 0.5 < x <= r as real + 0.5
  {
    if x >= 0.0 then (x + 0.5).Floor else -((-x + 0.5).Floor)
  }

  /** A price rounded to whole cents, as number_format(x, 2) rounds it. */
  function Cents(x: real): int {
    RoundHalfAwayFromZero(x * 100.0)
  }

  /** An unsigned decimal numeral: whole digits, then a point and the fraction digits if any. */
  function UnsignedText(whole: nat, fraction: string): string {
    if |fraction| == 0 then NatToString(whole) else NatToString(whole) + ("." + fraction)
  }

  /** A decimal numeral as PHP prints it: an optional minus sign before the unsigned numeral. */
  function DecimalText(negative: bool, whole: nat, fraction: string): string {
    if negative then "-" + UnsignedText(whole, fraction) else UnsignedText(whole, fraction)
  }

  /** A digit run alone scans as a whole number. */
  lemma ScanDigitsOnly(t: string)
    requires |t| > 0 && AllDigits(t)
    ensures ScanUnsigned(t) == Some((Literal(false, DigitsValue(t), 0, 0, 0), |t|))
  {
    DigitSpanOf(t, "");
    assert t + "" == t;
    assert t[..|t|] == t;
    WithExponentAtEnd(DigitsValue(t), 0, 0, t);
  }

  /** A digit run, a point and a second digit run that reach the end scan as one literal. */
  lemma ScanPointed(t: string, w: nat, f: nat)
    requires w == DigitSpan(t) && w < |t| && t[w] == '.'
    requires f == DigitSpan(t[w + 1..]) && w + 1 + f == |t| && w + f > 0
    ensures ScanUnsigned(t) == Some((Literal(false, DigitsValue(t[..w]), DigitsValue(t[w + 1..][..f]), f, 0), |t|))
  {
    hide DigitSpan, DigitsValue, ScanExponent;
    var whole := DigitsValue(t[..w]);
    var fraction := DigitsValue(t[w + 1..][..f]);
    assert ScanUnsigned(t) == WithExponent(whole, fraction, f, t, |t|);
    WithExponentAtEnd(whole, fraction, f, t);
  }

  /** Digits, a point and fraction digits scan as one literal covering the whole text. */
  lemma ScanDigitsWithFraction(t: string, whole: string, fraction: string)
    requires |whole| > 0 && AllDigits(whole) && |fraction| > 0 && AllDigits(fraction)
    requires t == whole + ("." + fraction)
    ensures ScanUnsigned(t) == Some((Literal(false, DigitsValue(whole), DigitsValue(fraction), |fraction|, 0), |t|))
  {
    var w := |whole|;
    var f := |fraction|;
    DigitSpanOf(whole, "." + fraction);
    assert t[..w] == whole;
    assert t[w] == '.';
    assert t[w + 1..] == fraction;
    DigitSpanOf(fraction, "");
    assert fraction + "" == fraction;
    assert fraction[..f] == fraction;
    ScanPointed(t, w, f);
  }

  /** An unsigned numeral scans to its whole and fraction digits, all of it. */
  lemma ScanUnsignedText(whole: nat, fraction: string)
    requires AllDigits(fraction)
    ensures ScanUnsigned(UnsignedText(whole, fraction))
         == Some((Literal(false, whole, DigitsValue(fraction), |fraction|, 0), |UnsignedText(whole, fraction)|))
  {
    var digits := NatToString(whole);
    if |fraction| == 0 {
      ScanDigitsOnly(digits);
    } else {
      ScanDigitsWithFraction(UnsignedText(whole, fraction), digits, fraction);
    }
  }

  /** A minus sign in front of an unsigned literal negates it. */
  lemma ScanNegative(t: string, literal: Literal, len: nat)
    requires |t| > 0 && IsDigit(t[0])
    requires ScanUnsigned(t) == Some((literal, len))
    ensures ScanLiteral("-" + t) == Some((literal.(negative := true), 1 + len))
  {
    var s := "-" + t;
    assert s[1..] == t;
    assert |s| > 0 && s[0] == '-';
  }

  /** Without a sign, the literal is the unsigned one. */
  lemma ScanNonNegative(t: string, literal: Literal, len: nat)
    requires |t| > 0 && IsDigit(t[0])
    requires ScanUnsigned(t) == Some((literal, len))
    ensures ScanLiteral(t) == Some((literal, len))
  {
    assert !(t[0] == '+' || t[0] == '-');
  }

  /** A string that is one whole literal, with no surrounding whitespace, is numeric with that literal's value. */
  lemma ParseWholeLiteral(s: string, literal: Literal)
    requires |s| > 0 && !IsSpace(s[0])
    requires ScanLiteral(s) == Some((literal, |s|))
    ensures NumericLiteral(s) == Some(literal)
  {
    assert SpaceSpan(s) == 0;
    assert s[0..] == s;
    assert s[|s|..] == "";
  }

  /** Without an exponent a literal is its whole part plus its fraction. */
  lemma LiteralValueNoExponent(negative: bool, whole: nat, fraction: nat, digits: nat)
    ensures LiteralValue(Literal(negative, whole, fraction, digits, 0)) == Signed(negative, whole as real + Fraction(fraction, digits))
  {
    assert Scale(0) == 1.0;
  }

  /** A text that scans, from a leading digit to its end, as one unsigned literal is that literal. */
  lemma UnsignedParses(t: string, literal: Literal)
    requires |t| > 0 && IsDigit(t[0])
    requires ScanUnsigned(t) == Some((literal, |t|))
    ensures NumericLiteral(t) == Some(literal)
  {
    ScanNonNegative(t, literal, |t|);
    ParseWholeLiteral(t, literal);
  }

  /** The same text behind a minus sign is the negated literal. */
  lemma NegativeParses(t: string, literal: Literal)
    requires |t| > 0 && IsDigit(t[0])
    requires ScanUnsigned(t) == Some((literal, |t|))
    ensures NumericLiteral("-" + t) == Some(literal.(negative := true))
  {
    ScanNegative(t, literal, |t|);
    ParseWholeLiteral("-" + t, literal.(negative := true));
  }

  /** A printed decimal numeral is the exponent-free literal it was printed from. */
  lemma DecimalTextLiteral(negative: bool, whole: nat, fraction: string)
    requires AllDigits(fraction)
    ensures NumericLiteral(DecimalText(negative, whole, fraction))
         == Some(Literal(negative, whole, DigitsValue(fraction), |fraction|, 0))
  {
    var t := UnsignedText(whole, fraction);
    var literal := Literal(false, whole, DigitsValue(fraction), |fraction|, 0);
    ScanUnsignedText(whole, fraction);
    assert t[0] == NatToString(whole)[0];
    if negative {
      NegativeParses(t, literal);
    } else {
      UnsignedParses(t, literal);
    }
  }

  /** A string that is an exponent-free literal has the value of its whole part plus its fraction. */
  lemma ParseNoExponent(s: string, negative: bool, whole: nat, fraction: nat, digits: nat)
    requires NumericLiteral(s) == Some(Literal(negative, whole, fraction, digits, 0))
    ensures ParseNumeric(s) == Some(Signed(negative, whole as real + Fraction(fraction, digits)))
  {
    LiteralValueNoExponent(negative, whole, fraction, digits);
  }

  /**
   * Reading back a printed decimal numeral gives the number it was printed
   * from: f is the value and d the count of its fraction digits.
   */
  lemma DecimalTextValue(negative: bool, whole: nat, fraction: string, f: nat, d: nat)
    requires AllDigits(fraction) && DigitsValue(fraction) == f && |fraction| == d
    ensures ParseNumeric(DecimalText(negative, whole, fraction)) == Some(Signed(negative, whole as real + Fraction(f, d)))
  {
    DecimalTextLiteral(negative, whole, fraction);
    ParseNoExponent(DecimalText(negative, whole, fraction), negative, whole, f, d);
  }

  /** number_format(cents / 100, 2, '.', ''): two decimals, no thousands separator. */
  function CostText(cents: int): string {
    var m := if cents < 0 then -cents else cents;
    var r := m % 100;
    DecimalText(cents < 0, m / 100, [DigitChar(r / 10), DigitChar(r % 10)])
  }

  lemma TwoDigitsValue(a: nat, b: nat)
    requires a < 10 && b < 10
    ensures DigitsValue([DigitChar(a), DigitChar(b)]) == 10 * a + b
  {
    var s := [DigitChar(a), DigitChar(b)];
    assert s[..1] == [DigitChar(a)];
    assert [DigitChar(a)][..0] == [];
    assert DigitsValue([DigitChar(a)]) == a;
    assert DigitsValue(s) == 10 * DigitsValue(s[..1]) + b;
  }

  /** Splitting |cents| into whole units and two fraction digits loses nothing. */
  lemma HundredthsSplit(n: int, m: nat, fraction: nat, digits: nat)
    requires m == (if n < 0 then -n else n)
    requires digits <= 2 && fraction * Pow10(2 - digits) == m % 100
    ensures Signed(n < 0, (m / 100) as real + Fraction(fraction, digits)) == n as real / 100.0
  {
    assert Pow10(2) == 100 && Pow10(1) == 10 && Pow10(0) == 1;
    assert (m / 100) * 100 + m % 100 == m;
    assert Fraction(fraction, digits) == (m % 100) as real / 100.0;
  }

  /** The cost text reads back as its whole units plus its two fraction digits. */
  lemma CostTextDigits(cents: int)
    ensures var m := if cents < 0 then -cents else cents;
      ParseNumeric(CostText(cents)) == Some(Signed(cents < 0, (m / 100) as real + Fraction(m % 100, 2)))
  {
    hide ParseNumeric, NatToString, DigitsValue;
    var m := if cents < 0 then -cents else cents;
    var r := m % 100;
    TwoDigitsValue(r / 10, r % 10);
    DecimalTextValue(cents < 0, m / 100, [DigitChar(r / 10), DigitChar(r % 10)], r, 2);
  }

  /** Whole units plus two fraction digits make up cents / 100. */
  lemma CentsSplit(cents: int)
    ensures var m := if cents < 0 then -cents else cents;
      Signed(cents < 0, (m / 100) as real + Fraction(m % 100, 2)) == cents as real / 100.0
  {
    var m := if cents < 0 then -cents else cents;
    HundredthsSplit(cents, m, m % 100, 2);
  }

  /** The printed cost text reads back as exactly cents / 100. */
  lemma CostTextValue(cents: int)
    ensures ParseNumeric(CostText(cents)) == Some(cents as real / 100.0)
  {
    hide *;
    CostTextDigits(cents);
    CentsSplit(cents);
  }

  /** The fraction digits PHP prints for a remainder r < 100 of hundredths: none, one or two. */
  function HundredthsFraction(r: nat): (fraction: string)
    requires r < 100
    ensures AllDigits(fraction) && |fraction| <= 2
    ensures DigitsValue(fraction) * Pow10(2 - |fraction|) == r
    ensures |fraction| > 0 ==> fraction[|fraction| - 1] != '0'
  {
    if r == 0 then ""
    else if r % 10 == 0 then
      var fraction := [DigitChar(r / 10)];
      assert fraction[..0] == [];
      assert Pow10(1) == 10;
      fraction
    else
      TwoDigitsValue(r / 10, r % 10);
      [DigitChar(r / 10), DigitChar(r % 10)]
  }

  /**
   * How PHP prints n / 100 for an integer n: an integer when it divides
   * evenly, otherwise the shortest decimal.
   */
  function HundredthsText(n: int): string {
    var m := if n < 0 then -n else n;
    DecimalText(n < 0, m / 100, HundredthsFraction(m % 100))
  }

  /** The printed hundredths read back as their whole units plus their fraction digits. */
  lemma HundredthsTextDigits(n: int)
    ensures var m := if n < 0 then -n else n; var fraction := HundredthsFraction(m % 100);
      ParseNumeric(HundredthsText(n)) == Some(Signed(n < 0, (m / 100) as real + Fraction(DigitsValue(fraction), |fraction|)))
  {
    hide ParseNumeric, NatToString, DigitsValue;
    var m := if n < 0 then -n else n;
    var fraction := HundredthsFraction(m % 100);
    DecimalTextValue(n < 0, m / 100, fraction, DigitsValue(fraction), |fraction|);
  }

  /** Whole units plus the printed fraction digits make up n / 100. */
  lemma HundredthsFractionSplit(n: int)
    ensures var m := if n < 0 then -n else n; var fraction := HundredthsFraction(m % 100);
      Signed(n < 0, (m / 100) as real + Fraction(DigitsValue(fraction), |fraction|)) == n as real / 100.0
  {
    var m := if n < 0 then -n else n;
    var fraction := HundredthsFraction(m % 100);
    HundredthsSplit(n, m, DigitsValue(fraction), |fraction|);
  }

  /** The printed hundredths read back as exactly n / 100. */
  lemma HundredthsTextValue(n: int)
    ensures ParseNumeric(HundredthsText(n)) == Some(n as real / 100.0)
  {
    hide *;
    HundredthsTextDigits(n);
    HundredthsFractionSplit(n);
  }

  /** A numeric string's literal is also its leading literal. */
  lemma NumericLiteralLeads(s: string)
    ensures NumericLiteral(s).Some? ==> LeadingLiteral(s) == NumericLiteral(s)
  {
  }

  /** A printed natural number is the literal of that whole number. */
  lemma NatLiteral(n: nat)
    ensures NumericLiteral(NatToString(n)) == Some(Literal(false, n, 0, 0, 0))
  {
    assert DecimalText(false, n, "") == NatToString(n);
    assert DigitsValue("") == 0;
    DecimalTextLiteral(false, n, "");
  }

  /**
   * The (int) cast reads back a printed natural number within the 64-bit
   * range, saturates above it, and gives 0 past the range of a double.
   */
  lemma IntCastOfNat(n: nat)
    ensures n <= MaxLong ==> IntCast(NatToString(n)) == n
    ensures MaxLong < n < DoubleOverflow ==> IntCast(NatToString(n)) == MaxLong
    ensures n >= DoubleOverflow ==> IntCast(NatToString(n)) == 0
  {
    hide NumericLiteral, ScanLiteral, ScanUnsigned, WithExponent, ScanExponent, NatToString, DecimalText,
      UnsignedText, SpaceSpan, DigitSpan, DigitsValue, LeadingLiteral;
    NatLiteral(n);
    NumericLiteralLeads(NatToString(n));
    LiteralValueNoExponent(false, n, 0, 0);
    assert LeadingNumber(NatToString(n)) == Some(n as real);
  }

  // What a numeric string can be made of.

  /** The characters a numeric string can contain: digits, whitespace, signs, the point and the exponent mark. */
  predicate NumeralChar(c: char) {
    IsDigit(c) || IsSpace(c) || c == '+' || c == '-' || c == '.' || c == 'e' || c == 'E'
  }

  predicate NumeralChars(s: string) {
    forall i :: 0 <= i < |s| ==> NumeralChar(s[i])
  }

  lemma ExponentChars(u: string)
    ensures NumeralChars(u[..ScanExponent(u).1])
  {
    var len := ScanExponent(u).1;
    if len > 0 {
      var signLen := if u[1] == '+' || u[1] == '-' then 1 else 0;
      var digits := u[1 + signLen..];
      var d := DigitSpan(digits);
      assert len == 1 + signLen + d;
      forall i | 1 + signLen <= i < len
        ensures IsDigit(u[i])
      {
        assert u[i] == digits[..d][i - 1 - signLen];
      }
    }
  }

  lemma NumeralCharsJoin(a: string, b: string)
    requires NumeralChars(a) && NumeralChars(b)
    ensures NumeralChars(a + b)
  {
    forall i | 0 <= i < |a + b|
      ensures NumeralChar((a + b)[i])
    {
      if i >= |a| {
        assert (a + b)[i] == b[i - |a|];
      }
    }
  }

  /** A digit run, a point and a digit run are numeral characters. */
  lemma MantissaChars(t: string, w: nat, f: nat)
    requires w + f < |t| && AllDigits(t[..w]) && t[w] == '.' && AllDigits(t[w + 1..][..f])
    ensures NumeralChars(t[..w + 1 + f])
  {
    forall i | 0 <= i < w + 1 + f
      ensures NumeralChar(t[i])
    {
      if i < w {
        assert t[i] == t[..w][i];
      } else if i > w {
        assert t[i] == t[w + 1..][..f][i - w - 1];
      }
    }
  }

  lemma DigitsChars(s: string)
    requires AllDigits(s)
    ensures NumeralChars(s)
  {
  }

  /** A pointed mantissa: the scan continues with the exponent right after the fraction digits. */
  lemma ScanPointedPrefix(t: string, w: nat, f: nat)
    requires w == DigitSpan(t) && w < |t| && t[w] == '.'
    requires f == DigitSpan(t[w + 1..]) && w + f > 0
    ensures ScanUnsigned(t) == WithExponent(DigitsValue(t[..w]), DigitsValue(t[w + 1..][..f]), f, t, w + 1 + f)
  {
    hide DigitSpan, DigitsValue, ScanExponent;
  }

  /** A mantissa without a point: the scan continues with the exponent right after the digits. */
  lemma ScanWholePrefix(t: string, w: nat)
    requires w == DigitSpan(t) && 0 < w && (w == |t| || t[w] != '.')
    ensures ScanUnsigned(t) == WithExponent(DigitsValue(t[..w]), 0, 0, t, w)
  {
    hide DigitSpan, DigitsValue, ScanExponent;
  }

  lemma UnsignedChars(t: string)
    requires ScanUnsigned(t).Some?
    ensures NumeralChars(t[..ScanUnsigned(t).value.1])
  {
    hide DigitSpan, DigitsValue, ScanExponent, NumeralChars, NumeralChar;
    var w := DigitSpan(t);
    var pointed := w < |t| && t[w] == '.';
    var end := if pointed then w + 1 + DigitSpan(t[w + 1..]) else w;
    if pointed {
      ScanPointedPrefix(t, w, DigitSpan(t[w + 1..]));
    } else {
      ScanWholePrefix(t, w);
    }
    var e := ScanExponent(t[end..]).1;
    assert ScanUnsigned(t).value.1 == end + e;
    ExponentChars(t[end..]);
    if pointed {
      MantissaChars(t, w, DigitSpan(t[w + 1..]));
    } else {
      DigitsChars(t[..w]);
    }
    assert t[..end + e] == t[..end] + t[end..][..e];
    NumeralCharsJoin(t[..end], t[end..][..e]);
  }

  /** A signed literal: the sign followed by an unsigned literal. */
  lemma ScanSigned(t: string)
    requires |t| > 0 && (t[0] == '+' || t[0] == '-') && ScanLiteral(t).Some?
    ensures ScanUnsigned(t[1..]).Some? && ScanLiteral(t).value.1 == 1 + ScanUnsigned(t[1..]).value.1
  {
    hide ScanUnsigned;
  }

  /** An unsigned literal: the literal the scan of an unsigned number finds. */
  lemma ScanUnsignedLiteral(t: string)
    requires !(|t| > 0 && (t[0] == '+' || t[0] == '-')) && ScanLiteral(t).Some?
    ensures ScanUnsigned(t) == ScanLiteral(t)
  {
    hide ScanUnsigned;
  }

  lemma LiteralChars(t: string)
    requires ScanLiteral(t).Some?
    ensures NumeralChars(t[..ScanLiteral(t).value.1])
  {
    hide ScanUnsigned, ScanLiteral, ScanExponent, DigitSpan, DigitsValue;
    if |t| > 0 && (t[0] == '+' || t[0] == '-') {
      var u := t[1..];
      ScanSigned(t);
      UnsignedChars(u);
      var len := ScanUnsigned(u).value.1;
      assert NumeralChars([t[0]]);
      NumeralCharsJoin([t[0]], u[..len]);
      assert t[..1 + len] == [t[0]] + u[..len];
    } else {
      ScanUnsignedLiteral(t);
      UnsignedChars(t);
    }
  }

  /** Whitespace is made of numeral characters. */
  lemma SpacesChars(s: string)
    requires AllSpaces(s)
    ensures NumeralChars(s)
  {
  }

  /** A numeric string splits into leading whitespace, one literal and trailing whitespace. */
  lemma NumericSplit(s: string, lead: nat)
    requires IsNumeric(s) && lead == SpaceSpan(s)
    ensures lead <= |s| && AllSpaces(s[..lead]) && ScanLiteral(s[lead..]).Some?
    ensures lead + ScanLiteral(s[lead..]).value.1 <= |s|
    ensures AllSpaces(s[lead + ScanLiteral(s[lead..]).value.1..])
  {
    hide ScanLiteral, ScanUnsigned, SpaceSpan, AllSpaces, LiteralValue, WithExponent, ScanExponent, DigitSpan,
      DigitsValue;
  }

  /** Only numeral characters survive in a numeric string: any other character makes it non-numeric. */
  lemma NumericChars(s: string)
    requires IsNumeric(s)
    ensures NumeralChars(s)
  {
    hide *;
    var lead := SpaceSpan(s);
    NumericSplit(s, lead);
    var t := s[lead..];
    var len := ScanLiteral(t).value.1;
    LiteralChars(t);
    SpacesChars(s[..lead]);
    SpacesChars(s[lead + len..]);
    NumeralCharsJoin(s[..lead], t[..len]);
    NumeralCharsJoin(s[..lead] + t[..len], s[lead + len..]);
    assert s == s[..lead] + t[..len] + s[lead + len..];
  }
}
