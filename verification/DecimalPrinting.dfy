/** `int_to_str` and `ccpcp_decimal_to_string`: digits written backwards, reversed and shifted in one buffer. */
module DecimalPrinting {
  import opened ByteStrings
  import opened DecimalDigits
  import opened Decimals
  import opened CponNumbers
  import opened DecimalTexts

  /** Digits are as many as needed and no more. */
  lemma {:induction false} DigitsLength(n: nat, k: nat)
    requires k >= 1 && n < Pow10(k)
    ensures |Digits(n)| <= k
    decreases k
  {
    if n >= 10 {
      assert Pow10(1) == 10 by { assert Pow10(0) == 1; }
      assert k >= 2;
      DigitsLength(n / 10, k - 1);
    }
  }

  lemma PrintedLengths()
    ensures Pow10(10) == 10000000000 && Pow10(19) == 10000000000000000000 && Pow10(20) == 100000000000000000000
  {
    assert Pow10(3) == 1000;
    Pow10Adds(3, 3);
    Pow10Adds(6, 3);
    Pow10Adds(9, 1);
    Pow10Adds(9, 9);
    Pow10Adds(18, 1);
    Pow10Adds(19, 1);
    assert Pow10(1) == 10;
  }

  /** No decimal needs more than 32 bytes. */
  lemma DecimalTextFits(m: int, e: int)
    requires -TWO_63 < m < TWO_63 && -TWO_31 < e < TWO_31
    ensures |Digits(Abs(m))| <= 19 && |ToString(e)| <= 11 && 1 <= |DecimalText(m, e)| <= 32
  {
    PrintedLengths();
    DigitsLength(Abs(m), 19);
    DigitsLength(Abs(e), 10);
  }

  /** Digits of `val` in reverse order from `at` on; 0 if they do not fit. */
  method WriteReversed(buff: array<byte>, at: nat, len: nat, val: nat) returns (n: nat)
    requires at + len <= buff.Length
    modifies buff
    ensures buff[..at] == old(buff[..at])
    ensures n == (if |Digits(val)| <= len then |Digits(val)| else 0)
    ensures forall j | at <= j < at + n :: buff[j] == Digits(val)[at + n - 1 - j]
    ensures n > 0 ==> forall j | at + n <= j < buff.Length :: buff[j] == old(buff[j])
  {
    ghost var all := Digits(val);
    if val == 0 {
      if len == 0 {
        return 0;
      }
      buff[at] := ZERO;
      return 1;
    }
    n := 0;
    var v := val;
    while v != 0
      invariant n <= len && n <= |all|
      invariant buff[..at] == old(buff[..at])
      invariant if v == 0 then n == |all| else n < |all| && Digits(v) == all[..|all| - n]
      invariant forall j | at <= j < at + n :: buff[j] == all[|all| - 1 - (j - at)]
      invariant forall j | at + n <= j < buff.Length :: buff[j] == old(buff[j])
    {
      var d := v % 10;
      LastDigit(v);
      if n == len {
        return 0;
      }
      v := v / 10;
      buff[at + n] := ZERO + d;
      n := n + 1;
    }
  }

  lemma LastDigit(v: nat)
    ensures Digits(v)[|Digits(v)| - 1] == ZERO + v % 10
    ensures if v < 10 then |Digits(v)| == 1 else Digits(v / 10) == Digits(v)[..|Digits(v)| - 1]
  {
  }

  /** Reverses what stands in `at .. at + n`. */
  method ReverseRange(buff: array<byte>, at: nat, n: nat)
    requires at + n <= buff.Length
    modifies buff
    ensures buff[..at] == old(buff[..at])
    ensures forall j | at <= j < at + n :: buff[j] == old(buff[..])[2 * at + n - 1 - j]
    ensures forall j | at + n <= j < buff.Length :: buff[j] == old(buff[j])
  {
    ghost var was := buff[..];
    var i := 0;
    while i < n / 2
      invariant 0 <= i <= n / 2
      invariant buff[..at] == was[..at]
      invariant forall j | at <= j < at + i || at + n - i <= j < at + n :: buff[j] == was[2 * at + n - 1 - j]
      invariant forall j | at + i <= j < at + n - i || at + n <= j < buff.Length :: buff[j] == was[j]
    {
      var c := buff[at + i];
      buff[at + i] := buff[at + n - i - 1];
      buff[at + n - i - 1] := c;
      i := i + 1;
    }
  }

  method IntToStr(buff: array<byte>, at: nat, len: nat, val: int) returns (n: nat)
    requires at + len <= buff.Length && (val < 0 ==> len >= 1)
    modifies buff
    ensures buff[..at] == old(buff[..at])
    ensures n == (if |ToString(val)| <= len then |ToString(val)| else 0)
    ensures at + n <= buff.Length && (n > 0 ==> buff[at..at + n] == ToString(val))
  {
    hide Digits;
    ghost var before := buff[..at];
    var str, room := if val < 0 then at + 1 else at, if val < 0 then len - 1 else len;
    assert before == buff[..str][..at];
    n := WriteReversed(buff, str, room, Abs(val));
    assert before == buff[..str][..at] == buff[..at];
    if n == 0 {
      return 0;
    }
    ReverseRange(buff, str, n);
    assert before == buff[..str][..at] == buff[..at];
    assert buff[str..str + n] == Digits(Abs(val));
    if val < 0 {
      buff[at] := MINUS;
      n := n + 1;
      assert buff[at..at + n] == [MINUS] + Digits(-val);
    }
  }

  /** Moves the last `len - dot` digits right by one. */
  method OpenGap(buff: array<byte>, at: nat, len: nat, dot: nat)
    requires dot < len && at + len < buff.Length
    modifies buff
    ensures forall j | 0 <= j < at + dot :: buff[j] == old(buff[j])
    ensures forall j | at + dot < j <= at + len :: buff[j] == old(buff[j - 1])
  {
    var i := dot;
    while i < len
      invariant dot <= i <= len
      invariant forall j | 0 <= j <= at + len + dot - i && j < at + len :: buff[j] == old(buff[j])
      invariant forall j | at + len + dot - i < j <= at + len :: buff[j] == old(buff[j - 1])
    {
      buff[at + len + dot - i] := buff[at + len + dot - i - 1];
      i := i + 1;
    }
  }

  /** Moves the last `places` digits right by one and puts a dot in the gap. */
  method InsertDot(buff: array<byte>, at: nat, len: nat, places: nat)
    requires 0 < places < len && at + len < buff.Length
    modifies buff
    ensures buff[..at] == old(buff[..at])
    ensures var digs := old(buff[at..at + len]);
      buff[at..at + len + 1] == digs[..len - places] + [DOT] + digs[len - places..]
  {
    ghost var was := buff[..];
    var dot := len - places;
    OpenGap(buff, at, len, dot);
    buff[at + dot] := DOT;
    DotInserted(was, buff[..], at, at + dot, at + len);
  }

  lemma DotInserted(was: Bytes, now: Bytes, at: nat, dot: nat, end: nat)
    requires at <= dot <= end < |was| && |now| == |was|
    requires forall j | 0 <= j < dot :: now[j] == was[j]
    requires now[dot] == DOT
    requires forall j | dot < j <= end :: now[j] == was[j - 1]
    ensures now[..at] == was[..at]
    ensures var digs := was[at..end]; now[at..end + 1] == digs[..dot - at] + [DOT] + digs[dot - at..]
  {
  }

  /** Moves all digits right and puts "0." and zeros in front. */
  method PadFraction(buff: array<byte>, at: nat, len: nat, zeros: nat)
    requires at + len + zeros + 2 <= buff.Length
    modifies buff
    ensures buff[..at] == old(buff[..at])
    ensures buff[at..at + len + zeros + 2] == [ZERO, DOT] + Zeros(zeros) + old(buff[at..at + len])
  {
    ghost var was := buff[..];
    var i := 0;
    while i < len
      invariant 0 <= i <= len
      invariant forall j | 0 <= j < at + len - i :: buff[j] == was[j]
      invariant forall j | at + len - i + zeros + 2 <= j < at + len + zeros + 2 :: buff[j] == was[j - zeros - 2]
    {
      buff[at + len - i - 1 + zeros + 2] := buff[at + len - i - 1];
      i := i + 1;
    }
    buff[at] := ZERO;
    buff[at + 1] := DOT;
    i := 0;
    while i < zeros
      invariant 0 <= i <= zeros
      invariant forall j | 0 <= j < at :: buff[j] == was[j]
      invariant buff[at] == ZERO && buff[at + 1] == DOT
      invariant forall j | at + 2 <= j < at + 2 + i :: buff[j] == ZERO
      invariant forall j | at + zeros + 2 <= j < at + len + zeros + 2 :: buff[j] == was[j - zeros - 2]
    {
      buff[at + 2 + i] := ZERO;
      i := i + 1;
    }
    FractionPadded(was, buff[..], at, zeros, len);
  }

  lemma FractionPadded(was: Bytes, now: Bytes, at: nat, zeros: nat, len: nat)
    requires at + len + zeros + 2 <= |was| == |now|
    requires now[at] == ZERO && now[at + 1] == DOT
    requires forall j | at + 2 <= j < at + 2 + zeros :: now[j] == ZERO
    requires forall j | at + zeros + 2 <= j < at + len + zeros + 2 :: now[j] == was[j - zeros - 2]
    ensures now[at..at + len + zeros + 2] == [ZERO, DOT] + Zeros(zeros) + was[at..at + len]
  {
    assert now[at..at + 2] == [ZERO, DOT];
    assert now[at + 2..at + 2 + zeros] == Zeros(zeros);
    assert now[at + 2 + zeros..at + len + zeros + 2] == was[at..at + len];
    assert now[at..at + len + zeros + 2]
        == now[at..at + 2] + now[at + 2..at + 2 + zeros] + now[at + 2 + zeros..at + len + zeros + 2];
  }

  method AppendZeros(buff: array<byte>, at: nat, len: nat, zeros: nat)
    requires at + len + zeros < buff.Length
    modifies buff
    ensures buff[..at] == old(buff[..at])
    ensures buff[at..at + len + zeros + 1] == old(buff[at..at + len]) + Zeros(zeros) + [DOT]
  {
    ghost var was := buff[..];
    var n := len;
    for i := 0 to zeros
      invariant n == len + i
      invariant forall j | 0 <= j < at + len :: buff[j] == was[j]
      invariant forall j | at + len <= j < at + n :: buff[j] == ZERO
    {
      buff[at + n] := ZERO;
      n := n + 1;
    }
    buff[at + n] := DOT;
    ZerosAppended(was, buff[..], at, len, zeros);
  }

  lemma ZerosAppended(was: Bytes, now: Bytes, at: nat, len: nat, zeros: nat)
    requires at + len + zeros < |was| == |now|
    requires forall j | 0 <= j < at + len :: now[j] == was[j]
    requires forall j | at + len <= j < at + len + zeros :: now[j] == ZERO
    requires now[at + len + zeros] == DOT
    ensures now[at..at + len + zeros + 1] == was[at..at + len] + Zeros(zeros) + [DOT]
  {
    assert now[at..at + len] == was[at..at + len];
    assert now[at + len..at + len + zeros] == Zeros(zeros);
    assert now[at + len + zeros..at + len + zeros + 1] == [DOT];
    assert now[at..at + len + zeros + 1]
        == now[at..at + len] + now[at + len..at + len + zeros] + now[at + len + zeros..at + len + zeros + 1];
  }

  /** Puts `e` behind what is there. */
  method PutExponentMark(buff: array<byte>, end: nat)
    requires end < buff.Length
    modifies buff
    ensures buff[..end + 1] == old(buff[..end]) + [CHAR_E]
  {
    buff[end] := CHAR_E;
  }

  lemma Split(s: Bytes, k: nat)
    requires k <= |s|
    ensures s == s[..k] + s[k..]
  {
  }

  /** `e` and the exponent behind the digits. */
  method AppendExponent(buff: array<byte>, end: nat, e: int) returns (n: nat)
    requires end + 1 + |ToString(e)| <= buff.Length
    modifies buff
    ensures n == 1 + |ToString(e)|
    ensures buff[..end + n] == old(buff[..end]) + [CHAR_E] + ToString(e)
  {
    PutExponentMark(buff, end);
    ghost var head := buff[..end + 1];
    n := IntToStr(buff, end + 1, buff.Length - end - 1, e);
    n := n + 1;
    ghost var text := buff[..end + n];
    assert text[..end + 1] == buff[..end + 1] && text[end + 1..] == buff[end + 1..end + n];
    Split(text, end + 1);
  }

  lemma TextAppended(was: Bytes, now: Bytes, at: nat, mark: Bytes, text: Bytes)
    requires at <= |was| && now == was + mark + text
    ensures now[..at] == was[..at] && now[at..] == was[at..] + mark + text
  {
  }

  /** The text of the digits that stand in the buffer, with an exponent that needs no `e`. */
  method ApplyPoint(buff: array<byte>, at: nat, len: nat, e: int) returns (n: nat)
    requires 1 <= len <= 19 && at <= 1 && buff.Length >= 32 && NeedsNoMark(len, e)
    modifies buff
    ensures buff[..at] == old(buff[..at])
    ensures n == |UnsignedText(old(buff[at..at + len]), e)| && at + n <= buff.Length
    ensures buff[at..at + n] == UnsignedText(old(buff[at..at + len]), e)
  {
    hide UnsignedText, Zeros;
    ghost var digs := buff[at..at + len];
    var places := if e < 0 then -e else 0;
    ghost var text := UnsignedText(digs, e);
    PointText(digs, e);
    if 0 < places < len {
      assert text == digs[..len - places] + [DOT] + digs[len - places..];
      InsertDot(buff, at, len, places);
      n := len + 1;
    } else if 0 < places <= 3 {
      assert text == [ZERO, DOT] + Zeros(places - len) + digs;
      PadFraction(buff, at, len, places - len);
      n := places + 2;
      assert at + len + (places - len) + 2 == at + n;
    } else {
      AppendZeros(buff, at, len, e);
      n := len + e + 1;
    }
    assert buff[at..at + n] == text;
  }

  lemma PointText(digs: Bytes, e: int)
    requires digs != [] && NeedsNoMark(|digs|, e)
    ensures 0 < -e < |digs| ==> UnsignedText(digs, e) == digs[..|digs| + e] + [DOT] + digs[|digs| + e..]
    ensures |digs| <= -e ==> UnsignedText(digs, e) == [ZERO, DOT] + Zeros(-e - |digs|) + digs
    ensures e >= 0 ==> UnsignedText(digs, e) == digs + Zeros(e) + [DOT]
    ensures |UnsignedText(digs, e)| == if 0 < -e < |digs| then |digs| + 1 else if e < 0 then 2 - e else |digs| + e + 1
  {
    assert e == 0 ==> digs + Zeros(0) == digs;
  }

  /** Exponents that are shown by the place of the point alone. */
  predicate NeedsNoMark(len: nat, e: int) { 0 < -e < len || 0 < -e <= 3 || (e >= 0 && (e == 0 || len + e <= 9)) }

  /** The digits that stand in the buffer, `e` and the exponent. */
  method ApplyMark(buff: array<byte>, at: nat, len: nat, e: int) returns (n: nat)
    requires at + len + 1 + |ToString(e)| <= buff.Length
    modifies buff
    ensures buff[..at] == old(buff[..at])
    ensures n == len + 1 + |ToString(e)| && at + n <= buff.Length
    ensures buff[at..at + n] == old(buff[at..at + len]) + [CHAR_E] + ToString(e)
  {
    ghost var was := buff[..at + len];
    assert was[..at] == buff[..at] && was[at..] == buff[at..at + len];
    var more := AppendExponent(buff, at + len, e);
    n := len + more;
    TextAppended(was, buff[..at + n], at, [CHAR_E], ToString(e));
    assert buff[..at + n][..at] == buff[..at] && buff[..at + n][at..] == buff[at..at + n];
  }


  method ApplyExponent(buff: array<byte>, at: nat, len: nat, e: int) returns (n: nat)
    requires 1 <= len <= 19 && at <= 1 && buff.Length >= 32 && |ToString(e)| <= 11
    modifies buff
    ensures buff[..at] == old(buff[..at])
    ensures n == |UnsignedText(old(buff[at..at + len]), e)| && at + n <= buff.Length
    ensures buff[at..at + n] == UnsignedText(old(buff[at..at + len]), e)
  {
    if NeedsNoMark(len, e) {
      n := ApplyPoint(buff, at, len, e);
    } else {
      n := ApplyMark(buff, at, len, e);
    }
  }

  method DecimalToString(buff: array<byte>, m: int, e: int) returns (n: nat)
    requires -TWO_63 < m < TWO_63 && -TWO_31 < e < TWO_31 && buff.Length >= 32
    modifies buff
    ensures n == |DecimalText(m, e)| <= 32
    ensures buff[..n] == DecimalText(m, e)
  {
    DecimalTextFits(m, e);
    var str := if m < 0 then 1 else 0;
    var len := IntToStr(buff, str, buff.Length - str, Abs(m));
    n := ApplyExponent(buff, str, len, e);
    if m < 0 {
      ghost var text := buff[1..1 + n];
      buff[0] := MINUS;
      n := n + 1;
      assert buff[..n] == [MINUS] + text;
    } else {
      assert buff[..n] == buff[0..n] == [] + buff[0..n];
    }
  }
}
