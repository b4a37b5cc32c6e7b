/** Printing and parsing of decimals (`ccpcp_decimal_to_string` and the number parser of CPON). */
module DecimalTexts {
  import opened ByteStrings
  import opened RpcValues
  import opened Codecs
  import opened DecimalDigits
  import opened Decimals
  import opened CponNumbers

  function Zeros(n: nat): (s: Bytes)
    ensures |s| == n && AllDigits(s)
  {
    seq(n, i => ZERO)
  }

  /** Text of a non-negative mantissa with its exponent. */
  function UnsignedText(digs: Bytes, e: int): Bytes
  {
    var places := if e < 0 then -e else 0;
    if 0 < places < |digs| then digs[..|digs| - places] + [DOT] + digs[|digs| - places..]
    else if 0 < places <= 3 then [ZERO, DOT] + Zeros(places - |digs|) + digs
    else if e > 0 && |digs| + e <= 9 then digs + Zeros(e) + [DOT]
    else if e == 0 then digs + [DOT]
    else digs + [CHAR_E] + ToString(e)
  }

  function DecimalText(m: int, e: int): Bytes
  {
    (if m < 0 then [MINUS] else []) + UnsignedText(Digits(Abs(m)), e)
  }

  /**
   The text has an e exactly if the exponent is positive and would make it longer than nine digits, or puts more than
   three places behind a point that all digits are behind.
   */
  lemma HasMarkIff(m: int, e: int)
    ensures CHAR_E in DecimalText(m, e) <==>
      var len := |Digits(Abs(m))|; (e > 0 && len + e > 9) || (e <= -len && e < -3)
  {
    var digs := Digits(Abs(m));
    assert CHAR_E !in digs;
    if e < 0 && -e >= |digs| && -e <= 3 {
      NoMarkInZeros(-e - |digs|);
    } else if e > 0 && |digs| + e <= 9 {
      NoMarkInZeros(e);
    }
  }

  lemma NoMarkInZeros(n: nat)
    ensures CHAR_E !in Zeros(n)
  {
    forall i | 0 <= i < n ensures Zeros(n)[i] != CHAR_E {
      assert IsDigit(Zeros(n)[i]);
    }
  }

  /** The pair that a printed decimal parses to. */
  function KeptDecimal(m: int, e: int): Body
  {
    if e > 0 && |Digits(Abs(m))| + e <= 9 then Decimal(m * Pow10(e), 0) else Decimal(m, e)
  }

  lemma KeptDecimalIsSameNumber(m: int, e: int)
    ensures var k := KeptDecimal(m, e); SameNumber(Dec(m, e), Dec(k.mantissa, k.exponent))
  {
  }

  // ---------------------------------------------------------------- digit strings

  lemma {:induction false} NumeralOfZeros(acc: nat, n: nat)
    ensures Numeral(acc, Zeros(n)) == acc * Pow10(n)
    decreases n
  {
    if n > 0 {
      assert Zeros(n)[1..] == Zeros(n - 1);
      NumeralOfZeros(10 * acc, n - 1);
      MulAssociates(acc, 10, Pow10(n - 1));
    }
  }

  lemma {:induction false} NumeralBound(acc: nat, s: Bytes)
    requires AllDigits(s)
    ensures Numeral(acc, s) < (acc + 1) * Pow10(|s|)
    decreases |s|
  {
    if s != [] {
      assert IsDigit(s[0]);
      var next := 10 * acc + (s[0] - ZERO);
      NumeralBound(next, s[1..]);
      MulMonotone(next + 1, 10 * (acc + 1), Pow10(|s| - 1));
      MulAssociates(acc + 1, 10, Pow10(|s| - 1));
    }
  }

  /** An optional sign and digits in front of a byte that is neither digit nor x. */
  lemma ScanIntPart(neg: bool, digs: Bytes, rest: Bytes)
    requires AllDigits(digs) && digs != [] && Numeral(0, digs) <= INT64_MAX
    requires rest != [] && !(IsDigit(rest[0]) || rest[0] == CHAR_X)
    ensures var r := ScanInt(StartScan(0), (if neg then [MINUS] else []) + digs + rest);
      r.rest == rest && r.st.value == Numeral(0, digs) && r.st.digits >= 1 && r.st.neg == neg && !r.st.overflow
  {
    if neg {
      var s := [MINUS] + digs + rest;
      assert s[1..] == digs + rest;
      ScanDigits(StartScan(0).(signed := true, neg := true, n := 1), digs, rest);
    } else {
      assert [] + digs + rest == digs + rest;
      ScanDigits(StartScan(0), digs, rest);
    }
  }

  lemma NoExponent(neg: bool, mantissa: int, places: nat, rest: Bytes)
    requires EndsNumber(rest)
    ensures LexExponent(neg, false, mantissa, places, rest)
         == Lexed(Scalar(Decimal(Signed(neg, mantissa), Wrap(-(places as int), TWO_32))), rest)
  {
  }

  lemma ScanFraction(m: nat, fraction: Bytes, rest: Bytes)
    requires AllDigits(fraction) && EndsNumber(rest) && Numeral(m, fraction) <= INT64_MAX
    ensures var f := ScanInt(StartScan(m), fraction + rest);
      f.rest == rest && f.st.value == Numeral(m, fraction) && f.st.digits == |fraction| && !f.st.overflow
  {
    ScanDigits(StartScan(m), fraction, rest);
  }

  /** Integer digits, a dot and fraction digits. */
  lemma LexPointed(neg: bool, whole: Bytes, fraction: Bytes, rest: Bytes)
    requires AllDigits(whole) && whole != [] && AllDigits(fraction) && EndsNumber(rest)
    requires Numeral(Numeral(0, whole), fraction) <= INT64_MAX
    ensures LexNumber((if neg then [MINUS] else []) + whole + ([DOT] + (fraction + rest)))
         == Lexed(Scalar(Decimal(Signed(neg, Numeral(Numeral(0, whole), fraction)), Wrap(-|fraction|, TWO_32))), rest)
  {
    var m, tail := Numeral(0, whole), [DOT] + (fraction + rest);
    NumeralGrows(m, fraction);
    ScanIntPart(neg, whole, tail);
    assert tail[1..] == fraction + rest;
    ScanFraction(m, fraction, rest);
    NoExponent(neg, Numeral(m, fraction), |fraction|, rest);
  }

  lemma TakesExponent(neg: bool, m: int, e: int, rest: Bytes)
    requires EndsNumber(rest) && -TWO_31 < e < TWO_31
    ensures LexExponent(neg, false, m, 0, [CHAR_E] + (ToString(e) + rest))
         == Lexed(Scalar(Decimal(Signed(neg, m), e)), rest)
  {
    assert ([CHAR_E] + (ToString(e) + rest))[1..] == ToString(e) + rest;
    ScanSigned(e, rest);
  }

  /** Digits, an e and a signed exponent. */
  lemma LexWithExponent(neg: bool, digs: Bytes, e: int, rest: Bytes)
    requires AllDigits(digs) && digs != [] && Numeral(0, digs) <= INT64_MAX && EndsNumber(rest)
    requires -TWO_31 < e < TWO_31
    ensures LexNumber((if neg then [MINUS] else []) + digs + ([CHAR_E] + (ToString(e) + rest)))
         == Lexed(Scalar(Decimal(Signed(neg, Numeral(0, digs)), e)), rest)
  {
    ScanIntPart(neg, digs, [CHAR_E] + (ToString(e) + rest));
    TakesExponent(neg, Numeral(0, digs), e, rest);
  }

  lemma ExponentText(m: int, e: int, digs: Bytes, rest: Bytes)
    requires UnsignedText(Digits(Abs(m)), e) == digs + [CHAR_E] + ToString(e)
    ensures DecimalText(m, e) + rest == (if m < 0 then [MINUS] else []) + digs + ([CHAR_E] + (ToString(e) + rest))
  {
  }

  lemma PointedText(m: int, e: int, whole: Bytes, fraction: Bytes, rest: Bytes)
    requires UnsignedText(Digits(Abs(m)), e) == whole + [DOT] + fraction
    ensures DecimalText(m, e) + rest == (if m < 0 then [MINUS] else []) + whole + ([DOT] + (fraction + rest))
  {
  }

  lemma SplitMantissa(m: int, e: int, rest: Bytes)
    requires -TWO_63 < m < TWO_63 && EndsNumber(rest)
    requires 0 < -e < |Digits(Abs(m))| && -TWO_31 < e
    ensures LexNumber(DecimalText(m, e) + rest) == Lexed(Scalar(Decimal(m, e)), rest)
  {
    var digs := Digits(Abs(m));
    var whole, fraction := digs[..|digs| + e], digs[|digs| + e..];
    assert whole + fraction == digs;
    DigitsValue(Abs(m));
    NumeralConcat(0, whole, fraction);
    LexPointed(m < 0, whole, fraction, rest);
    PointedText(m, e, whole, fraction, rest);
  }

  lemma PaddedFraction(m: int, e: int, rest: Bytes)
    requires -TWO_63 < m < TWO_63 && EndsNumber(rest)
    requires |Digits(Abs(m))| <= -e && 0 < -e <= 3
    ensures LexNumber(DecimalText(m, e) + rest) == Lexed(Scalar(Decimal(m, e)), rest)
  {
    var digs := Digits(Abs(m));
    var zeros := Zeros(-e - |digs|);
    var fraction := zeros + digs;
    assert AllDigits(fraction);
    DigitsValue(Abs(m));
    assert Numeral(0, [ZERO]) == 0 by { assert [ZERO][1..] == []; }
    NumeralOfZeros(0, -e - |digs|);
    NumeralConcat(0, zeros, digs);
    LexPointed(m < 0, [ZERO], fraction, rest);
    assert [ZERO, DOT] + zeros + digs == [ZERO] + [DOT] + fraction;
    PointedText(m, e, [ZERO], fraction, rest);
  }

  lemma NineDigitsFit(s: Bytes)
    requires AllDigits(s) && |s| <= 9
    ensures Numeral(0, s) < 1000000000
  {
    NumeralBound(0, s);
    Pow10Adds(|s|, 9 - |s|);
    MulMonotone(1, Pow10(9 - |s|), Pow10(|s|));
    assert Pow10(9) == 1000000000 by { assert Pow10(3) == 1000; Pow10Adds(3, 3); Pow10Adds(6, 3); }
  }

  lemma ZeroExtended(m: nat, e: nat)
    requires |Digits(m)| + e <= 9
    ensures AllDigits(Digits(m) + Zeros(e))
    ensures Numeral(0, Digits(m) + Zeros(e)) == m * Pow10(e) < 1000000000
  {
    DigitsValue(m);
    NumeralConcat(0, Digits(m), Zeros(e));
    NumeralOfZeros(m, e);
    NineDigitsFit(Digits(m) + Zeros(e));
  }

  lemma SignedProduct(m: int, p: int)
    ensures Signed(m < 0, Abs(m) * p) == m * p
  {
  }

  lemma AppendedZeros(m: int, e: int, rest: Bytes)
    requires EndsNumber(rest)
    requires e > 0 && |Digits(Abs(m))| + e <= 9
    ensures LexNumber(DecimalText(m, e) + rest) == Lexed(Scalar(Decimal(m * Pow10(e), 0)), rest)
  {
    var whole := Digits(Abs(m)) + Zeros(e);
    ZeroExtended(Abs(m), e);
    SignedProduct(m, Pow10(e));
    LexPointed(m < 0, whole, [], rest);
    assert whole + [DOT] == whole + [DOT] + [];
    PointedText(m, e, whole, [], rest);
  }

  lemma WholeNumber(m: int, rest: Bytes)
    requires -TWO_63 < m < TWO_63 && EndsNumber(rest)
    ensures LexNumber(DecimalText(m, 0) + rest) == Lexed(Scalar(Decimal(m, 0)), rest)
  {
    DigitsValue(Abs(m));
    LexPointed(m < 0, Digits(Abs(m)), [], rest);
    assert Digits(Abs(m)) + [DOT] == Digits(Abs(m)) + [DOT] + [];
    PointedText(m, 0, Digits(Abs(m)), [], rest);
  }

  /** Every printed decimal parses to the pair it keeps; only short integers with zeros appended change pair. */
  lemma DecimalRoundTrip(m: int, e: int, rest: Bytes)
    requires -TWO_63 < m < TWO_63 && -TWO_31 < e < TWO_31 && EndsNumber(rest)
    ensures LexNumber(DecimalText(m, e) + rest) == Lexed(Scalar(KeptDecimal(m, e)), rest)
    ensures var k := KeptDecimal(m, e); SameNumber(Dec(m, e), Dec(k.mantissa, k.exponent))
  {
    KeptDecimalIsSameNumber(m, e);
    var digs := Digits(Abs(m));
    if 0 < -e < |digs| {
      SplitMantissa(m, e, rest);
    } else if 0 < -e <= 3 {
      PaddedFraction(m, e, rest);
    } else if e > 0 && |digs| + e <= 9 {
      AppendedZeros(m, e, rest);
    } else if e == 0 {
      WholeNumber(m, rest);
    } else {
      DigitsValue(Abs(m));
      LexWithExponent(m < 0, digs, e, rest);
      ExponentText(m, e, digs, rest);
    }
  }
}
