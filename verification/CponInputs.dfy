/** CPON text as people write it: numbers in all their forms, comments, and tokens that the writer does not use. */
module CponInputs {
  import opened ByteStrings
  import opened RpcValues
  import opened Codecs
  import opened DecimalDigits
  import opened Decimals
  import opened CponNumbers
  import opened DecimalTexts
  import opened Chunks
  import opened Cpon

  // ---------------------------------------------------------------- digits of a base

  function HexDigit(b: byte): nat
    requires IsHexDigit(b)
  {
    if IsDigit(b) then b - 48 else if b >= 97 then b - 87 else b - 55
  }

  predicate IsHexDigit(b: byte) { IsDigit(b) || 97 <= b <= 102 || 65 <= b <= 70 }

  predicate IsBaseDigit(base: int, b: byte) { if base == 16 then IsHexDigit(b) else IsDigit(b) }

  predicate AllOfBase(base: int, s: Bytes) { forall i | 0 <= i < |s| :: IsBaseDigit(base, s[i]) }

  lemma FirstOfBase(base: int, s: Bytes)
    requires AllOfBase(base, s) && s != []
    ensures IsBaseDigit(base, s[0]) && IsHexDigit(s[0]) && AllOfBase(base, s[1..])
  {
  }

  /** The number that digits of a base stand for, most significant first, behind `acc`. */
  function NumberOf(base: nat, acc: nat, s: Bytes): nat
    requires AllOfBase(base, s)
    decreases |s|
  {
    if s == [] then acc
    else
      FirstOfBase(base, s);
      NumberOf(base, base * acc + HexDigit(s[0]), s[1..])
  }

  lemma {:induction false} NumberGrows(base: nat, acc: nat, s: Bytes)
    requires base >= 1 && AllOfBase(base, s)
    ensures NumberOf(base, acc, s) >= acc
    decreases |s|
  {
    if s != [] {
      FirstOfBase(base, s);
      MulMonotone(1, base, acc);
      NumberGrows(base, base * acc + HexDigit(s[0]), s[1..]);
    }
  }

  lemma {:induction false} DecimalNumber(acc: nat, s: Bytes)
    requires AllDigits(s)
    ensures AllOfBase(10, s) && NumberOf(10, acc, s) == Numeral(acc, s)
    decreases |s|
  {
    if s != [] {
      assert IsDigit(s[0]);
      DecimalNumber(10 * acc + (s[0] - ZERO), s[1..]);
    }
  }

  /** Input at which digits of a base stop. */
  predicate StopsBase(base: int, s: Bytes) { s == [] || (!IsBaseDigit(base, s[0]) && s[0] != CHAR_X) }

  /** What scanning digits makes of a state. */
  ghost predicate Scans(st: IntScan, s: Bytes, r: IntScan)
    requires st.base >= 0 && st.value >= 0 && AllOfBase(st.base, s)
  {
    && r.neg == st.neg && r.base == st.base
    && (st.overflow ==> r.overflow)
    && (!st.overflow ==>
          var n := NumberOf(st.base, st.value, s);
          (r.overflow <==> n > INT64_MAX) && (n <= INT64_MAX ==> r.value == n && r.digits == st.digits + |s|))
    && r.digits >= st.digits && r.value >= 0
  }

  lemma ScanDigitOf(st: IntScan, b: byte)
    requires (st.base == 10 || st.base == 16) && IsBaseDigit(st.base, b) && st.value >= 0
    ensures ScanByte(st, b) == Some(AddDigit(st, HexDigit(b)))
  {
  }

  lemma ScansOne(st: IntScan, s: Bytes, r: IntScan)
    requires (st.base == 10 || st.base == 16) && st.value >= 0 && AllOfBase(st.base, s) && s != []
    requires IsHexDigit(s[0]) && AllOfBase(st.base, s[1..])
    requires Scans(AddDigit(st, HexDigit(s[0])), s[1..], r)
    ensures Scans(st, s, r)
  {
    var n := st.base * st.value + HexDigit(s[0]);
    NumberGrows(st.base, n, s[1..]);
    assert NumberOf(st.base, st.value, s) == NumberOf(st.base, n, s[1..]);
    hide NumberOf, HexDigit, AllOfBase;
  }

  /** Digits of either base are all taken, and their number is right unless it is too large, which is noticed. */
  lemma {:induction false} ScanNumber(st: IntScan, s: Bytes, rest: Bytes)
    requires (st.base == 10 || st.base == 16) && 0 <= st.value <= INT64_MAX && AllOfBase(st.base, s)
    requires StopsBase(st.base, rest) && (s != [] || st.n > 0)
    ensures var r := ScanInt(st, s + rest); r.rest == rest && Scans(st, s, r.st)
    decreases |s|
  {
    if s == [] {
      assert s + rest == rest;
    } else {
      FirstOfBase(st.base, s);
      ScanDigitOf(st, s[0]);
      var next := AddDigit(st, HexDigit(s[0]));
      assert s + rest == [s[0]] + (s[1..] + rest);
      ScanOne(st, s[0], s[1..] + rest);
      assert next.base == st.base && 0 <= next.value <= INT64_MAX && next.n > 0;
      hide Scans, AddDigit, ScanByte, HexDigit;
      ScanNumber(next, s[1..], rest);
      ScansOne(st, s, ScanInt(st, s + rest).st);
    }
  }

  /** From a value that leaves room for one digit, at least that one is counted. */
  lemma FirstCounts(st: IntScan, s: Bytes, rest: Bytes)
    requires (st.base == 10 || st.base == 16) && st.value == 0 && AllOfBase(st.base, s) && s != []
    requires StopsBase(st.base, rest)
    ensures ScanInt(st, s + rest).st.digits > st.digits
  {
    FirstOfBase(st.base, s);
    ScanDigitOf(st, s[0]);
    var next := AddDigit(st, HexDigit(s[0]));
    assert s + rest == [s[0]] + (s[1..] + rest);
    ScanOne(st, s[0], s[1..] + rest);
    ScanNumber(next, s[1..], rest);
  }

  // ---------------------------------------------------------------- signs and prefixes

  predicate IsSign(s: Bytes) { s == [] || s == [PLUS] || s == [MINUS] }

  function AfterSign(sign: Bytes): IntScan
    requires IsSign(sign)
  {
    IntScan(0, 0, sign == [MINUS], 10, |sign|, sign != [], false)
  }

  lemma ScanSign(sign: Bytes, s: Bytes)
    requires IsSign(sign)
    ensures ScanInt(StartScan(0), sign + s) == ScanInt(AfterSign(sign), s)
  {
    if sign == [] {
      assert sign + s == s;
    } else {
      ScanOne(StartScan(0), sign[0], s);
      assert [sign[0]] == sign;
    }
  }

  /** Behind a sign, 0x starts a hexadecimal number. */
  lemma ScanPrefix(sign: Bytes, s: Bytes)
    requires IsSign(sign)
    ensures ScanInt(AfterSign(sign), [ZERO, CHAR_X] + s)
         == ScanInt(AfterSign(sign).(base := 16, n := |sign| + 2), s)
  {
    var st := AfterSign(sign);
    assert [ZERO, CHAR_X] + s == [ZERO] + ([CHAR_X] + s);
    ScanOne(st, ZERO, [CHAR_X] + s);
    ScanOne(AddDigit(st, 0), CHAR_X, s);
  }

  /** An integer with its sign, at the ends of the 64-bit range if it is outside. */
  function Clipped(sign: Bytes, n: nat): int
  {
    if n > INT64_MAX then if sign == [MINUS] then -TWO_63 else INT64_MAX
    else SignedBy(sign, n)
  }

  // ---------------------------------------------------------------- integers

  lemma NumberEnds(rest: Bytes)
    requires EndsNumber(rest)
    ensures StopsBase(10, rest)
  {
  }

  lemma ScanDecimalNumber(sign: Bytes, digs: Bytes, rest: Bytes)
    requires IsSign(sign) && AllDigits(digs) && digs != [] && StopsBase(10, rest)
    ensures var r := ScanInt(StartScan(0), sign + (digs + rest));
      && r.rest == rest && r.st.digits >= 1 && r.st.neg == (sign == [MINUS])
      && (r.st.overflow <==> Numeral(0, digs) > INT64_MAX)
      && (Numeral(0, digs) <= INT64_MAX ==> r.st.value == Numeral(0, digs))
  {
    ScanSign(sign, digs + rest);
    DecimalNumber(0, digs);
    ScanNumber(AfterSign(sign), digs, rest);
    FirstCounts(AfterSign(sign), digs, rest);
  }

  /** Any sign and any decimal digits: the number they stand for, clipped to 64 bits. */
  lemma IntReads(sign: Bytes, digs: Bytes, rest: Bytes)
    requires IsSign(sign) && AllDigits(digs) && digs != [] && EndsNumber(rest)
    ensures LexNumber(sign + (digs + rest)) == Lexed(Scalar(Int(Clipped(sign, Numeral(0, digs)))), rest)
  {
    NumberEnds(rest);
    ScanDecimalNumber(sign, digs, rest);
  }

  /** With a u behind it, the number without its sign, at most INT64_MAX. */
  lemma UIntReads(sign: Bytes, digs: Bytes, rest: Bytes)
    requires IsSign(sign) && AllDigits(digs) && digs != []
    ensures LexNumber(sign + (digs + ([CHAR_U] + rest))) == Lexed(Scalar(UInt(Clipped([], Numeral(0, digs)))), rest)
  {
    ScanDecimalNumber(sign, digs, [CHAR_U] + rest);
    assert ([CHAR_U] + rest)[1..] == rest;
  }

  /** Hexadecimal digits of either case behind 0x. */
  lemma HexReads(sign: Bytes, digs: Bytes, rest: Bytes)
    requires IsSign(sign) && AllOfBase(16, digs) && digs != [] && EndsNumber(rest) && StopsBase(16, rest)
    ensures LexNumber(sign + ([ZERO, CHAR_X] + (digs + rest)))
         == Lexed(Scalar(Int(Clipped(sign, NumberOf(16, 0, digs)))), rest)
  {
    var st := AfterSign(sign).(base := 16, n := |sign| + 2);
    ScanSign(sign, [ZERO, CHAR_X] + (digs + rest));
    ScanPrefix(sign, digs + rest);
    ScanNumber(st, digs, rest);
    FirstCounts(st, digs, rest);
  }

  // ---------------------------------------------------------------- decimals

  function SignedBy(sign: Bytes, n: nat): int { if sign == [MINUS] then 0 - n else n }

  /** Behind the integer digits and a point. */
  lemma PointDispatch(s: Bytes, t: Bytes)
    requires s != []
    requires var i := ScanInt(StartScan(0), s); i.st.digits > 0 && !i.st.overflow && i.rest == [DOT] + t
    ensures var i := ScanInt(StartScan(0), s);
      var f := ScanInt(StartScan(i.st.value), t);
      LexNumber(s) == LexExponent(i.st.neg, f.st.overflow, f.st.value, f.st.digits, f.rest)
  {
    assert ([DOT] + t)[1..] == t;
  }

  lemma PointStops(rest: Bytes)
    ensures StopsBase(10, [DOT] + rest) && StopsBase(10, [CHAR_E] + rest) && StopsBase(10, [69] + rest)
  {
  }

  /** A decimal with digits behind its point and an exponent, which is an int. */
  function Scaled(mantissa: int, places: nat, exponent: int): Body
  {
    Decimal(mantissa, Wrap(exponent - places, TWO_32))
  }

  lemma ExponentReads(sign: Bytes, mantissa: nat, places: nat, mark: byte, expSign: Bytes, digs: Bytes, rest: Bytes)
    requires IsSign(sign) && IsSign(expSign) && AllDigits(digs) && digs != [] && EndsNumber(rest)
    requires Numeral(0, digs) <= INT64_MAX
    requires mark == CHAR_E || mark == 69
    ensures LexExponent(sign == [MINUS], false, mantissa, places, [mark] + (expSign + (digs + rest)))
         == Lexed(Scalar(Scaled(SignedBy(sign, mantissa), places, SignedBy(expSign, Numeral(0, digs)))), rest)
  {
    NumberEnds(rest);
    ScanDecimalNumber(expSign, digs, rest);
    assert ([mark] + (expSign + (digs + rest)))[1..] == expSign + (digs + rest);
  }

  lemma FractionScans(whole: Bytes, fraction: Bytes, rest: Bytes)
    requires AllDigits(whole) && AllDigits(fraction) && Numeral(0, whole + fraction) <= INT64_MAX
    requires StopsBase(10, rest) && (rest == [] || !(rest[0] in {PLUS, MINUS}))
    ensures Numeral(0, whole) <= INT64_MAX
    ensures var f := ScanInt(StartScan(Numeral(0, whole)), fraction + rest);
      && f.rest == rest && f.st.value == Numeral(0, whole + fraction) && f.st.digits == |fraction| && !f.st.overflow
  {
    NumeralConcat(0, whole, fraction);
    NumeralGrows(Numeral(0, whole), fraction);
    ScanDigits(StartScan(Numeral(0, whole)), fraction, rest);
  }

  /** Digits, a point and digits are taken together; what follows may be an exponent. */
  lemma PointThen(sign: Bytes, whole: Bytes, fraction: Bytes, tail: Bytes)
    requires IsSign(sign) && AllDigits(whole) && whole != [] && AllDigits(fraction)
    requires Numeral(0, whole + fraction) <= INT64_MAX
    requires StopsBase(10, tail) && (tail == [] || !(tail[0] in {PLUS, MINUS}))
    ensures LexNumber(sign + (whole + ([DOT] + (fraction + tail))))
         == LexExponent(sign == [MINUS], false, Numeral(0, whole + fraction), |fraction|, tail)
  {
    hide LexNumber, LexExponent, Numeral;
    PointStops(fraction + tail);
    FractionScans(whole, fraction, tail);
    ScanDecimalNumber(sign, whole, [DOT] + (fraction + tail));
    PointDispatch(sign + (whole + ([DOT] + (fraction + tail))), fraction + tail);
  }

  /** A decimal has as many places as there are digits behind its point. */
  lemma PointReads(sign: Bytes, whole: Bytes, fraction: Bytes, rest: Bytes)
    requires IsSign(sign) && AllDigits(whole) && whole != [] && AllDigits(fraction) && EndsNumber(rest)
    requires Numeral(0, whole + fraction) <= INT64_MAX
    ensures var m := Numeral(0, whole + fraction);
      LexNumber(sign + (whole + ([DOT] + (fraction + rest))))
        == Lexed(Scalar(Scaled(SignedBy(sign, m), |fraction|, 0)), rest)
  {
    hide LexNumber;
    NumberEnds(rest);
    PointThen(sign, whole, fraction, rest);
    NoExponent(sign == [MINUS], Numeral(0, whole + fraction), |fraction|, rest);
  }

  /** And an exponent, behind a letter of either case, is added to that. */
  lemma PointAndExponentRead(sign: Bytes, whole: Bytes, fraction: Bytes, mark: byte, expSign: Bytes, digs: Bytes,
                             rest: Bytes, tail: Bytes)
    requires IsSign(sign) && AllDigits(whole) && whole != [] && AllDigits(fraction) && EndsNumber(rest)
    requires IsSign(expSign) && AllDigits(digs) && digs != []
    requires Numeral(0, whole + fraction) <= INT64_MAX && Numeral(0, digs) <= INT64_MAX
    requires (mark == CHAR_E || mark == 69) && tail == [mark] + (expSign + (digs + rest))
    ensures LexNumber(sign + (whole + ([DOT] + (fraction + tail))))
         == Lexed(Scalar(Scaled(SignedBy(sign, Numeral(0, whole + fraction)), |fraction|,
                                SignedBy(expSign, Numeral(0, digs)))), rest)
  {
    hide LexNumber, LexExponent, Numeral, EndsNumber, IsSign, SignedBy, Scaled;
    PointStops(expSign + (digs + rest));
    PointThen(sign, whole, fraction, tail);
    ExponentReads(sign, Numeral(0, whole + fraction), |fraction|, mark, expSign, digs, rest);
  }

  /** Digits and an exponent without a point. */
  lemma ExponentAloneReads(sign: Bytes, whole: Bytes, mark: byte, expSign: Bytes, digs: Bytes, rest: Bytes, tail: Bytes)
    requires IsSign(sign) && AllDigits(whole) && whole != [] && EndsNumber(rest)
    requires IsSign(expSign) && AllDigits(digs) && digs != []
    requires Numeral(0, whole) <= INT64_MAX && Numeral(0, digs) <= INT64_MAX
    requires (mark == CHAR_E || mark == 69) && tail == [mark] + (expSign + (digs + rest))
    ensures LexNumber(sign + (whole + tail))
         == Lexed(Scalar(Scaled(SignedBy(sign, Numeral(0, whole)), 0, SignedBy(expSign, Numeral(0, digs)))), rest)
  {
    hide LexExponent, Numeral, EndsNumber, IsSign, SignedBy, Scaled;
    PointStops(expSign + (digs + rest));
    ScanDecimalNumber(sign, whole, tail);
    ExponentReads(sign, Numeral(0, whole), 0, mark, expSign, digs, rest);
  }

  // ---------------------------------------------------------------- comments

  /** The inside of a block comment, taken as the code takes it: a star together with the byte behind it. */
  predicate Inside(t: Bytes)
  {
    t == [] || (if t[0] != STAR then Inside(t[1..]) else |t| >= 2 && t[1] != SLASH && Inside(t[2..]))
  }

  lemma {:induction false} BlockEnds(t: Bytes, s: Bytes)
    requires Inside(t)
    ensures AfterBlock(t + ([STAR, SLASH] + s)) == Some(s)
    decreases |t|
  {
    var all := t + ([STAR, SLASH] + s);
    if t == [] {
      assert all == [STAR, SLASH] + s && all[2..] == s;
    } else if t[0] != STAR {
      assert all[1..] == t[1..] + ([STAR, SLASH] + s);
      BlockEnds(t[1..], s);
    } else {
      assert all[1] == t[1] && all[2..] == t[2..] + ([STAR, SLASH] + s);
      BlockEnds(t[2..], s);
    }
  }

  /** A block comment in front of anything changes nothing. */
  lemma BlockIsSkipped(t: Bytes, s: Bytes)
    requires Inside(t)
    ensures Skip([SLASH, STAR] + (t + ([STAR, SLASH] + s))) == Skip(s)
  {
    BlockEnds(t, s);
    var all := [SLASH, STAR] + (t + ([STAR, SLASH] + s));
    assert all[2..] == t + ([STAR, SLASH] + s);
  }

  lemma {:induction false} LineEnds(t: Bytes, s: Bytes)
    requires NEW_LINE !in t
    ensures AfterLine(t + ([NEW_LINE] + s)) == Some(s)
    decreases |t|
  {
    var all := t + ([NEW_LINE] + s);
    if t == [] {
      assert all == [NEW_LINE] + s && all[1..] == s;
    } else {
      assert t[0] in t && all[1..] == t[1..] + ([NEW_LINE] + s);
      LineEnds(t[1..], s);
    }
  }

  /** So does a line comment. */
  lemma LineIsSkipped(t: Bytes, s: Bytes)
    requires NEW_LINE !in t
    ensures Skip([SLASH, SLASH] + (t + ([NEW_LINE] + s))) == Skip(s)
  {
    LineEnds(t, s);
    var all := [SLASH, SLASH] + (t + ([NEW_LINE] + s));
    assert all[2..] == t + ([NEW_LINE] + s);
  }

  /** Blanks, tabs, line ends, commas and colons in front of anything change nothing. */
  lemma WhiteIsSkipped(w: byte, s: Bytes)
    requires w in {9, 10, 13, SPACE, COMMA, COLON}
    ensures Skip([w] + s) == Skip(s)
  {
    assert ([w] + s)[1..] == s;
  }

  /** What is skipped makes no difference to a value that follows. */
  lemma SkippedIsIgnored(indent: Bytes, dateText: Lexer, floatKey: Body -> Option<int>, a: Bytes, b: Bytes)
    requires Skip(a) == Skip(b)
    ensures var c := CponCodec(indent, dateText, floatKey); Read(c, a) == Read(c, b)
  {
  }

  function Stars(k: nat): Bytes { if k == 0 then [] else [STAR] + Stars(k - 1) }

  /** Stars in front of the end of a comment hide it exactly if their number is odd. */
  lemma {:induction false} StarsCloseIff(k: nat, s: Bytes)
    ensures AfterBlock(Stars(k) + ([STAR, SLASH] + s)) == Some(s) <==> k % 2 == 0
  {
    var all := Stars(k) + ([STAR, SLASH] + s);
    if k == 0 {
      BlockEnds([], s);
    } else if k == 1 {
      assert all == [STAR, STAR, SLASH] + s && all[2..] == [SLASH] + s && ([SLASH] + s)[1..] == s;
    } else {
      assert Stars(k) == [STAR, STAR] + Stars(k - 2);
      assert all[2..] == Stars(k - 2) + ([STAR, SLASH] + s);
      StarsCloseIff(k - 2, s);
    }
  }

  // ---------------------------------------------------------------- tokens

  predicate AllBlank(w: Bytes) { forall i | 0 <= i < |w| :: w[i] <= SPACE || w[i] >= 128 }

  /** Pairs of hexadecimal digits of either case, with blanks in front of them, and the bytes they stand for. */
  ghost predicate HexText(t: Bytes, data: Bytes)
    decreases |t|
  {
    if data == [] then AllBlank(t)
    else exists w, a, b, more :: HexPair(t, data, w, a, b, more) && HexText(more, data[1..])
  }

  ghost predicate HexPair(t: Bytes, data: Bytes, w: Bytes, a: byte, b: byte, more: Bytes)
  {
    && data != [] && t == w + ([a, b] + more) && AllBlank(w) && IsHexDigit(a) && IsHexDigit(b)
    && data[0] == 16 * HexDigit(a) + HexDigit(b)
  }

  lemma {:induction false} BlanksPass(w: Bytes, s: Bytes)
    requires AllBlank(w)
    ensures PastBlanks(w + s) == PastBlanks(s)
    decreases |w|
  {
    if w == [] {
      assert w + s == s;
    } else {
      assert (w + s)[1..] == w[1..] + s;
      BlanksPass(w[1..], s);
    }
  }

  lemma PairReads(w: Bytes, a: byte, b: byte, more: Bytes)
    requires AllBlank(w) && IsHexDigit(a) && IsHexDigit(b)
    ensures Next(CponHex, w + ([a, b] + more)) == Emit(16 * HexDigit(a) + HexDigit(b), false, more)
  {
    BlanksPass(w, [a, b] + more);
    assert ([a, b] + more)[2..] == more;
  }

  lemma {:induction false} HexTextReads(t: Bytes, data: Bytes, rest: Bytes)
    requires HexText(t, data)
    ensures Unescape(CponHex, t + ([QUOTE] + rest)) == Text(data, rest)
    decreases |t|
  {
    if data == [] {
      BlanksPass(t, [QUOTE] + rest);
      assert ([QUOTE] + rest)[1..] == rest;
    } else {
      var w, a, b, more :| HexPair(t, data, w, a, b, more) && HexText(more, data[1..]);
      assert t + ([QUOTE] + rest) == w + ([a, b] + (more + ([QUOTE] + rest)));
      PairReads(w, a, b, more + ([QUOTE] + rest));
      HexTextReads(more, data[1..], rest);
      assert [data[0]] + data[1..] == data;
    }
  }

  /** Hexadecimal blobs. */
  lemma HexBlobReads(dateText: Lexer, t: Bytes, data: Bytes, rest: Bytes)
    requires HexText(t, data)
    ensures LexToken(dateText, [CHAR_X, QUOTE] + (t + ([QUOTE] + rest))) == Lexed(Scalar(Blob(data)), rest)
  {
    var text := t + ([QUOTE] + rest);
    var all := [CHAR_X, QUOTE] + text;
    HexTextReads(t, data, rest);
    assert all[1..] == [QUOTE] + text && all[1..][1..] == text;
  }

  /** Arrays are read as lists. */
  lemma ArrayIsList(dateText: Lexer, s: Bytes)
    ensures LexToken(dateText, [CHAR_A, LIST_BEGIN] + s) == LexToken(dateText, [LIST_BEGIN] + s)
  {
    var all := [CHAR_A, LIST_BEGIN] + s;
    assert all[1..] == [LIST_BEGIN] + s && all[1..][1..] == s && ([LIST_BEGIN] + s)[1..] == s;
  }

  /** The letters of escapes in strings: 0 b t n f r, a quote, a slash and a backslash, and what they stand for. */
  const ESCAPES: map<byte, byte> :=
    map[48 := 0, 98 := 8, 116 := 9, 110 := 10, 102 := 12, 114 := 13, QUOTE := QUOTE, SLASH := SLASH,
        BACKSLASH := BACKSLASH]

  lemma EscapesRead(letter: byte, rest: Bytes)
    requires letter in ESCAPES
    ensures Next(CponString, [BACKSLASH, letter] + rest) == Emit(ESCAPES[letter], true, rest)
  {
    assert ([BACKSLASH, letter] + rest)[2..] == rest;
  }

  /** In blobs a backslash and two hexadecimal digits of either case stand for a byte. */
  lemma BlobEscapeReads(a: byte, b: byte, rest: Bytes)
    requires IsHexDigit(a) && IsHexDigit(b)
    ensures Next(CponBlob, [BACKSLASH, a, b] + rest) == Emit(16 * HexDigit(a) + HexDigit(b), true, rest)
  {
    assert ([BACKSLASH, a, b] + rest)[3..] == rest;
  }
}
