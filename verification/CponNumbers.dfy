/** Numbers in CPON text: the parser of libshvchainpack/c/ccpon.c and the printers of ccpcp.c. */
module CponNumbers {
  import opened ByteStrings
  import opened RpcValues
  import opened Codecs
  import opened DecimalDigits
  import opened Decimals

  const PLUS: byte := 43
  const DOT: byte := 46
  const CHAR_E: byte := 101
  const CHAR_X: byte := 120
  const CHAR_U: byte := 117

  // ---------------------------------------------------------------- unpack_int_to_result

  datatype IntScan = IntScan(value: int, digits: nat, neg: bool, base: int, n: nat, signed: bool, overflow: bool)

  function StartScan(init: int): IntScan { IntScan(init, 0, false, 10, 0, false, false) }

  function AddDigit(st: IntScan, d: int): IntScan
  {
    var v := st.value * st.base + d;
    if v > INT64_MAX then st.(overflow := true, n := st.n + 1)
    else st.(value := v, digits := st.digits + 1, n := st.n + 1)
  }

  /** Outcome of looking at one byte: None means that it is not part of the number and is put back. */
  function ScanByte(st: IntScan, b: byte): Option<IntScan>
  {
    if b == PLUS || b == MINUS then
      if st.n != 0 then None else Some(st.(signed := true, neg := b == MINUS, n := st.n + 1))
    else if b == CHAR_X then
      if st.n == (if st.signed then 2 else 1) && st.value == 0 then Some(st.(base := 16, digits := 0, n := st.n + 1))
      else None
    else if IsDigit(b) then Some(AddDigit(st, b - ZERO))
    else if 97 <= b <= 102 && st.base == 16 then Some(AddDigit(st, b - 97 + 10))
    else if 65 <= b <= 70 && st.base == 16 then Some(AddDigit(st, b - 65 + 10))
    else None
  }

  datatype Scanned = Scanned(st: IntScan, rest: Bytes)

  function ScanInt(st: IntScan, s: Bytes): (r: Scanned)
    ensures |r.rest| <= |s|
    decreases |s|
  {
    if s == [] then Scanned(st, s)
    else
      var next := ScanByte(st, s[0]);
      if next.None? then Scanned(st, s) else ScanInt(next.value, s[1..])
  }

  /** The scanning loop. */
  method UnpackIntToResult(init: int, s: Bytes) returns (r: Scanned)
    ensures r == ScanInt(StartScan(init), s)
  {
    var st, rest := StartScan(init), s;
    while rest != []
      invariant ScanInt(st, rest) == ScanInt(StartScan(init), s)
      decreases |rest|
    {
      var next := ScanByte(st, rest[0]);
      if next.None? {
        break;
      }
      st, rest := next.value, rest[1..];
    }
    r := Scanned(st, rest);
  }

  // ---------------------------------------------------------------- the number case of ccpon_unpack_next

  function Signed(neg: bool, n: int): int { if neg then -n else n }

  function FinishDecimal(neg: bool, overflow: bool, mantissa: int, places: nat, exponent: int): Body
  {
    if overflow && places == 0 then Decimal(if neg then -TWO_63 else INT64_MAX, 0)
    else Decimal(Signed(neg, mantissa), Wrap(exponent - places, TWO_32))
  }

  /** From the byte after the fraction digits on. */
  function LexExponent(neg: bool, overflow: bool, mantissa: int, places: nat, s: Bytes): (r: Lexed)
    ensures r.Lexed? ==> |r.rest| <= |s|
  {
    if s != [] && (s[0] == CHAR_E || s[0] == 69) then
      var e := ScanInt(StartScan(0), s[1..]);
      if e.st.digits == 0 then LexError
      else
        var exponent := Signed(e.st.neg, e.st.value);
        Lexed(Scalar(FinishDecimal(neg, overflow || e.st.overflow, mantissa, places, exponent)), e.rest)
    else
      Lexed(Scalar(FinishDecimal(neg, overflow, mantissa, places, 0)), if s != [] && s[0] == DOT then s[1..] else s)
  }

  function LexNumber(s: Bytes): (r: Lexed)
    requires s != []
    ensures r.Lexed? ==> |r.rest| < |s|
  {
    var i := ScanInt(StartScan(0), s);
    if i.st.digits == 0 then LexError
    else
      ScanConsumes(StartScan(0), s);
      var neg, overflow, m, r := i.st.neg, i.st.overflow, i.st.value, i.rest;
      if r != [] && r[0] == CHAR_U then
        Lexed(Scalar(UInt(if overflow then INT64_MAX else m)), r[1..])
      else if r != [] && r[0] == DOT then
        var f := ScanInt(StartScan(m), r[1..]);
        LexExponent(neg, overflow || f.st.overflow, f.st.value, f.st.digits, f.rest)
      else if r != [] && (r[0] == CHAR_E || r[0] == 69) then LexExponent(neg, overflow, m, 0, r)
      else Lexed(Scalar(Int(if overflow then (if neg then -TWO_63 else INT64_MAX) else Signed(neg, m))), r)
  }

  lemma {:induction false} ScanConsumes(st: IntScan, s: Bytes)
    requires ScanInt(st, s).st.digits > st.digits
    ensures |ScanInt(st, s).rest| < |s|
  {
  }

  // ---------------------------------------------------------------- scanning digits

  predicate AllDigits(s: Bytes) { forall i | 0 <= i < |s| :: IsDigit(s[i]) }

  /** Input at which a decimal number cannot be continued. */
  predicate EndsNumber(s: Bytes)
  {
    s == [] || !(IsDigit(s[0]) || s[0] in {PLUS, MINUS, CHAR_X, DOT, CHAR_U, CHAR_E, 69})
  }

  /** Input at which a run of decimal digits stops. */
  predicate StopsDigits(s: Bytes, st: IntScan)
  {
    s == [] || ScanByte(st, s[0]) == None
  }

  lemma {:induction false} NumeralGrows(acc: nat, s: Bytes)
    requires AllDigits(s)
    ensures Numeral(acc, s) >= acc
    decreases |s|
  {
    if s != [] {
      assert IsDigit(s[0]);
      NumeralGrows(10 * acc + (s[0] - ZERO), s[1..]);
    }
  }

  /** Decimal digits in front of a stop are added to the value, all counted, without overflow. */
  lemma {:induction false} ScanDigits(st: IntScan, s: Bytes, rest: Bytes)
    requires st.base == 10 && st.value >= 0 && AllDigits(s) && Numeral(st.value, s) <= INT64_MAX
    requires StopsDigits(rest, st.(value := Numeral(st.value, s), digits := st.digits + |s|, n := st.n + |s|))
    ensures ScanInt(st, s + rest)
         == Scanned(st.(value := Numeral(st.value, s), digits := st.digits + |s|, n := st.n + |s|), rest)
    decreases |s|
  {
    if s == [] {
      assert s + rest == rest;
    } else {
      assert IsDigit(s[0]);
      NumeralGrows(10 * st.value + (s[0] - ZERO), s[1..]);
      assert s + rest == [s[0]] + (s[1..] + rest);
      ScanOne(st, s[0], s[1..] + rest);
      ScanDigits(AddDigit(st, s[0] - ZERO), s[1..], rest);
    }
  }

  lemma ScanOne(st: IntScan, b: byte, s: Bytes)
    requires ScanByte(st, b).Some?
    ensures ScanInt(st, [b] + s) == ScanInt(ScanByte(st, b).value, s)
  {
    assert ([b] + s)[1..] == s;
  }

  lemma ScanDecimal(n: nat, rest: Bytes)
    requires n <= INT64_MAX
    requires rest == [] || !(IsDigit(rest[0]) || rest[0] == CHAR_X)
    ensures ScanInt(StartScan(0), Digits(n) + rest).rest == rest
    ensures var st := ScanInt(StartScan(0), Digits(n) + rest).st;
      st.value == n && st.digits == |Digits(n)| && !st.neg && !st.overflow
  {
    DigitsValue(n);
    ScanDigits(StartScan(0), Digits(n), rest);
  }

  lemma ScanSigned(i: int, rest: Bytes)
    requires -INT64_MAX <= i <= INT64_MAX
    requires rest == [] || !(IsDigit(rest[0]) || rest[0] == CHAR_X)
    ensures ScanInt(StartScan(0), ToString(i) + rest).rest == rest
    ensures var st := ScanInt(StartScan(0), ToString(i) + rest).st;
      st.value == Abs(i) && st.digits >= 1 && st.neg == (i < 0) && !st.overflow
  {
    if i >= 0 {
      ScanDecimal(i, rest);
    } else {
      DigitsValue(-i);
      assert ToString(i) + rest == [MINUS] + (Digits(-i) + rest);
      ScanOne(StartScan(0), MINUS, Digits(-i) + rest);
      ScanDigits(StartScan(0).(signed := true, neg := true, n := 1), Digits(-i), rest);
    }
  }
}
