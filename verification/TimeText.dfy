/**
 Times as text: ISO 8601 with milliseconds, as `ccpon_pack_date_time_str` prints it through one buffer and
 `ccpon_unpack_date_time` reads it, and the names of journal files, which are such texts.
 */
module TimeTexts {
  import opened ByteStrings
  import opened DecimalDigits
  import opened CponNumbers
  import opened Calendar
  import DecimalPrinting
  import DateTimeCode

  const TIME_MARK: byte := 84
  const UTC_MARK: byte := 90
  const CLOCK_SEP: byte := 58

  const TWO_57 := 0x200_0000_0000_0000

  /** The milliseconds that an `RpcDateTime` holds. */
  function Held(ms: int): int { Wrap(ms, TWO_57) }

  // ---------------------------------------------------------------- the text

  /** Two places, with a leading zero. */
  function Pad2(n: nat): (s: Bytes)
    ensures |s| >= 2 && forall i | 0 <= i < |s| :: IsDigit(s[i])
  {
    if n < 10 then [ZERO] + Digits(n) else Digits(n)
  }

  /** Three places; a single digit leaves the middle one as it was. */
  function Pad3(n: nat, middle: byte): Bytes
  {
    if n < 10 then [ZERO, middle] + Digits(n) else if n < 100 then [ZERO] + Digits(n) else Digits(n)
  }

  /** A number, a separator and what follows. */
  function Field(n: nat, sep: byte, rest: Bytes): Bytes { Pad2(n) + ([sep] + rest) }

  /** Year, month, day and time of day, the separators of which are given; years are printed as unsigned numbers. */
  function DateText(tm: Tm, minSep: byte, secSep: byte, rest: Bytes): Bytes
    requires ValidTm(tm)
  {
    Field(tm.year % TWO_32, MINUS,
    Field(tm.month + 1, MINUS,
    Field(tm.mday, TIME_MARK,
    Field(tm.hour, minSep,
    Field(tm.min, secSep, Pad2(tm.sec) + rest)))))
  }

  /** The broken-down second of a time; C division truncates. */
  function TmOf(ms: int): (tm: Tm)
    ensures ValidTm(tm)
  {
    GmTimeIsValid(TruncDiv(ms, 1000));
    GmTime(TruncDiv(ms, 1000))
  }

  function Msec(ms: int): int { ms - 1000 * TruncDiv(ms, 1000) }

  /** The byte that the buffer holds behind the first digit of the year. */
  function SecondDigit(year: int): (b: byte)
    ensures IsDigit(b)
  {
    Pad2(year % TWO_32)[1]
  }

  /** The milliseconds are printed into the buffer that held the date. */
  function MsecText(msec: int, second: byte, always: bool): Bytes
  {
    if msec > 0 || always then [DOT] + Pad3(msec % TWO_32, second) else []
  }

  /** `ccpon_pack_date_time_str` without an offset from UTC. */
  function IsoText(ms: int, always: bool, zone: bool): Bytes
  {
    var tm := TmOf(ms);
    var tail := MsecText(Msec(ms), SecondDigit(tm.year), always);
    DateText(tm, CLOCK_SEP, CLOCK_SEP, tail + if zone then [UTC_MARK] else [])
  }

  /** The time column of a journal row. */
  function TimeText(ms: int): Bytes { IsoText(Held(ms), false, true) }

  // ---------------------------------------------------------------- printing through one buffer

  method UIntToStr(buff: array<byte>, at: nat, n: nat) returns (len: nat)
    requires at + |Digits(n)| < buff.Length
    modifies buff
    ensures len == |Digits(n)| && buff[at..at + len] == Digits(n)
    ensures forall j | 0 <= j < at || at + len <= j < buff.Length :: buff[j] == old(buff[j])
  {
    ghost var was := buff[..];
    len := DecimalPrinting.WriteReversed(buff, at, buff.Length - at, n);
    assert forall j | 0 <= j < at :: buff[..at][j] == was[..at][j];
    ghost var reversed := buff[..];
    DecimalPrinting.ReverseRange(buff, at, len);
    assert forall j | 0 <= j < at :: buff[..at][j] == reversed[..at][j];
  }

  /** What the shift of `len` digits to the end of `width` places leaves in place `i`. */
  function Shifted(digits: Bytes, width: nat, before: byte, i: nat): byte
    requires |digits| <= width && i < width
  {
    if i >= width - |digits| then digits[i - (width - |digits|)] else if i < |digits| then ZERO else before
  }

  /** The shift loop of `uint_to_str_lpad`: it pads as many places as there are digits. */
  method ShiftRight(buff: array<byte>, at: nat, len: nat, width: nat)
    requires len < width && at + width <= buff.Length
    modifies buff
    ensures forall j | at <= j < at + width :: buff[j] == Shifted(old(buff[at..at + len]), width, old(buff[j]), j - at)
    ensures forall j | 0 <= j < at || at + width <= j < buff.Length :: buff[j] == old(buff[j])
  {
    ghost var was := buff[..];
    ghost var digits := buff[at..at + len];
    var i := 0;
    while i < len
      invariant 0 <= i <= len
      invariant forall j | 0 <= j < at || at + width <= j < buff.Length :: buff[j] == was[j]
      invariant forall j | at <= j < at + len - i :: buff[j] == was[j]
      invariant forall j | at + width - i <= j < at + width :: buff[j] == digits[j - at - (width - len)]
      invariant forall j | at + len - i <= j < at + width - i :: buff[j] == if j < at + len then ZERO else was[j]
    {
      buff[at + width - i - 1] := buff[at + len - i - 1];
      buff[at + len - i - 1] := ZERO;
      i := i + 1;
    }
  }

  method UIntToStrLPad(buff: array<byte>, at: nat, n: nat, width: nat) returns (len: nat)
    requires at + |Digits(n)| < buff.Length && at + width <= buff.Length
    modifies buff
    ensures len == if |Digits(n)| < width then width else |Digits(n)|
    ensures |Digits(n)| >= width ==> buff[at..at + len] == Digits(n)
    ensures |Digits(n)| < width ==>
      forall j | at <= j < at + width :: buff[j] == Shifted(Digits(n), width, old(buff[j]), j - at)
    ensures forall j | 0 <= j < at || at + len <= j < buff.Length :: buff[j] == old(buff[j])
  {
    len := UIntToStr(buff, at, n);
    if len < width {
      ShiftRight(buff, at, len, width);
      len := width;
    }
  }

  lemma OneDigit(n: nat)
    ensures n < 10 <==> |Digits(n)| == 1
    ensures n < 10 ==> Digits(n) == [ZERO + n]
    ensures 10 <= n < 100 ==> Digits(n) == [ZERO + n / 10, ZERO + n % 10]
    ensures 100 <= n ==> |Digits(n)| >= 3
  {
    if n >= 100 {
      assert |Digits(n / 10)| >= 2;
    }
  }

  method PutPadded2(buff: array<byte>, at: nat, n: nat) returns (len: nat)
    requires at + |Pad2(n)| < buff.Length
    modifies buff
    ensures len == |Pad2(n)| && buff[at..at + len] == Pad2(n)
    ensures forall j | 0 <= j < at || at + len <= j < buff.Length :: buff[j] == old(buff[j])
  {
    OneDigit(n);
    len := UIntToStrLPad(buff, at, n, 2);
  }

  method PutPadded3(buff: array<byte>, n: nat) returns (len: nat)
    requires |Digits(n)| + 3 < buff.Length
    modifies buff
    ensures len == |Pad3(n, old(buff[1]))| && len < buff.Length && buff[..len] == Pad3(n, old(buff[1]))
  {
    OneDigit(n);
    len := UIntToStrLPad(buff, 0, n, 3);
    assert buff[0..len] == buff[..len];
  }

  /** A number in two places and a separator. */
  method PutField(buff: array<byte>, at: nat, n: nat, sep: byte) returns (end: nat)
    requires at + |Pad2(n)| < buff.Length
    modifies buff
    ensures end == at + |Pad2(n)| + 1
    ensures buff[..end] == old(buff[..at]) + Field(n, sep, [])
  {
    ghost var before := buff[..at];
    var len := PutPadded2(buff, at, n);
    buff[at + len] := sep;
    end := at + len + 1;
    assert buff[..at] == before && buff[at..at + len] == Pad2(n);
    assert buff[..end] == buff[..at] + buff[at..at + len] + [buff[at + len]];
  }

  lemma FieldThen(n: nat, sep: byte, rest: Bytes)
    ensures Field(n, sep, rest) == Field(n, sep, []) + rest
  {
  }

  /** The date as the buffer gets it, field by field. */
  function DayFields(tm: Tm): Bytes
    requires ValidTm(tm)
  {
    Field(tm.year % TWO_32, MINUS, []) + Field(tm.month + 1, MINUS, []) + Field(tm.mday, TIME_MARK, [])
  }

  function HourFields(tm: Tm): Bytes
    requires ValidTm(tm)
  {
    Field(tm.hour, CLOCK_SEP, []) + Field(tm.min, CLOCK_SEP, []) + Pad2(tm.sec)
  }

  lemma ThreeFields(n: nat, a: byte, m: nat, b: byte, k: nat, c: byte, rest: Bytes)
    ensures Field(n, a, Field(m, b, Field(k, c, rest))) == Field(n, a, []) + Field(m, b, []) + Field(k, c, []) + rest
  {
    FieldThen(k, c, rest);
    FieldThen(m, b, Field(k, c, rest));
    FieldThen(n, a, Field(m, b, Field(k, c, rest)));
  }

  lemma TwoFields(n: nat, a: byte, m: nat, b: byte, last: Bytes, rest: Bytes)
    ensures Field(n, a, Field(m, b, last + rest)) == Field(n, a, []) + Field(m, b, []) + last + rest
  {
    FieldThen(m, b, last + rest);
    FieldThen(n, a, Field(m, b, last + rest));
  }

  lemma DateByFields(tm: Tm, rest: Bytes)
    requires ValidTm(tm)
    ensures DateText(tm, CLOCK_SEP, CLOCK_SEP, rest) == DayFields(tm) + HourFields(tm) + rest
  {
    hide Field, Pad2;
    var hour := Field(tm.hour, CLOCK_SEP, Field(tm.min, CLOCK_SEP, Pad2(tm.sec) + rest));
    ThreeFields(tm.year % TWO_32, MINUS, tm.month + 1, MINUS, tm.mday, TIME_MARK, hour);
    TwoFields(tm.hour, CLOCK_SEP, tm.min, CLOCK_SEP, Pad2(tm.sec), rest);
    assert hour == HourFields(tm) + rest;
  }

  lemma Unsigned32Fits(n: nat)
    requires n < TWO_32
    ensures |Digits(n)| <= 10 && |Pad2(n)| <= 10
  {
    DecimalPrinting.PrintedLengths();
    DecimalPrinting.DigitsLength(n, 10);
  }

  lemma SmallPad(n: nat)
    requires n < 100
    ensures |Pad2(n)| == 2
  {
    OneDigit(n);
  }

  lemma DateFits(tm: Tm)
    requires ValidTm(tm)
    ensures |Pad2(tm.year % TWO_32)| <= 10
    ensures |Pad2(tm.month + 1)| == |Pad2(tm.mday)| == |Pad2(tm.hour)| == |Pad2(tm.min)| == |Pad2(tm.sec)| == 2
  {
    Unsigned32Fits(tm.year % TWO_32);
    SmallPad(tm.month + 1);
    SmallPad(tm.mday);
    SmallPad(tm.hour);
    SmallPad(tm.min);
    SmallPad(tm.sec);
  }

  method PutDay(buff: array<byte>, tm: Tm) returns (len: nat)
    requires ValidTm(tm) && buff.Length == 32
    modifies buff
    ensures len == |DayFields(tm)| <= 17 && buff[..len] == DayFields(tm)
  {
    hide Field, Pad2;
    DateFits(tm);
    len := PutField(buff, 0, tm.year % TWO_32, MINUS);
    len := PutField(buff, len, tm.month + 1, MINUS);
    len := PutField(buff, len, tm.mday, TIME_MARK);
  }

  method PutHour(buff: array<byte>, at: nat, tm: Tm) returns (len: nat)
    requires ValidTm(tm) && buff.Length == 32 && at <= 17
    modifies buff
    ensures len == at + |HourFields(tm)| < 32 && buff[..len] == old(buff[..at]) + HourFields(tm)
  {
    hide Field, Pad2;
    DateFits(tm);
    len := PutField(buff, at, tm.hour, CLOCK_SEP);
    len := PutField(buff, len, tm.min, CLOCK_SEP);
    ghost var before := buff[..len];
    var n := PutPadded2(buff, len, tm.sec);
    assert buff[..len] == before && buff[..len + n] == buff[..len] + buff[len..len + n];
    len := len + n;
  }

  lemma SecondOfDate(tm: Tm)
    requires ValidTm(tm)
    ensures |DayFields(tm)| > 1 && (DayFields(tm) + HourFields(tm))[1] == SecondDigit(tm.year)
  {
  }

  /** The milliseconds go into the same buffer, whose second byte the year left there. */
  method PackDateTimeStr(ms: int, always: bool, zone: bool) returns (text: Bytes)
    ensures text == IsoText(ms, always, zone)
  {
    hide Field, Pad2, Pad3, DateText, DayFields, HourFields, SecondDigit, GmTime, Msec;
    var tm, msec := TmOf(ms), Msec(ms);
    var str := new byte[32](i => 0);
    var len := PutDay(str, tm);
    len := PutHour(str, len, tm);
    text := str[..len];
    SecondOfDate(tm);
    ghost var tail := [];
    if msec > 0 || always {
      assert str[1] == str[..len][1];
      Unsigned32Fits(msec % TWO_32);
      len := PutPadded3(str, msec % TWO_32);
      text := text + [DOT] + str[..len];
      tail := [DOT] + str[..len];
    }
    assert tail == MsecText(msec, SecondDigit(tm.year), always) && text == DayFields(tm) + HourFields(tm) + tail;
    if zone {
      text := text + [UTC_MARK];
    }
    DateByFields(tm, MsecText(msec, SecondDigit(tm.year), always) + if zone then [UTC_MARK] else []);
  }

  // ---------------------------------------------------------------- reading

  /** A value read from the front of a text, and what follows it. */
  datatype Part<+T> = NoPart | Part(value: T, rest: Bytes)
  {
    predicate IsFailure() { NoPart? }
    function PropagateFailure<U>(): Part<U> requires NoPart? { NoPart }
    function Extract(): Part<T> requires Part? { this }
  }

  /** A number, cut to 32 bits. */
  function Number(s: Bytes): Part<int>
  {
    var r := ScanInt(StartScan(0), s);
    if r.st.n == 0 then NoPart else Part(Wrap(Signed(r.st.neg, r.st.value), TWO_32), r.rest)
  }

  /** A number and the separator behind it; some separators may be any byte. */
  function NumberThen(s: Bytes, ok: byte -> bool): Part<int>
  {
    var n :- Number(s);
    if n.rest == [] || !ok(n.rest[0]) then NoPart else Part(n.value, n.rest[1..])
  }

  /** What stands behind the seconds or milliseconds: minutes from UTC; any other byte is left. */
  function Zone(s: Bytes): Part<int>
  {
    if s == [] then Part(0, s)
    else if s[0] == UTC_MARK then Part(0, s[1..])
    else if s[0] == PLUS || s[0] == MINUS then
      var r := ScanInt(StartScan(0), s[1..]);
      var val := Signed(r.st.neg, r.st.value);
      var minutes := if r.st.n == 2 then 60 * val else 60 * TruncDiv(val, 100) + (val - 100 * TruncDiv(val, 100));
      if r.st.n != 2 && r.st.n != 4 then NoPart else Part(if s[0] == MINUS then -minutes else minutes, r.rest)
    else Part(0, s)
  }

  /** Milliseconds, if there are any; a dot without digits leaves the C result unset. */
  function Fraction(s: Bytes): Part<int>
  {
    if s != [] && s[0] == DOT then Number(s[1..]) else Part(0, s)
  }

  predicate IsDash(b: byte) { b == MINUS }

  predicate IsDateEnd(b: byte) { b == TIME_MARK || b == 32 }

  predicate IsAny(b: byte) { true }

  /** Year, month from 1 and day. */
  function ReadDay(s: Bytes): Part<Date>
  {
    var year :- NumberThen(s, IsDash);
    var month :- NumberThen(year.rest, IsDash);
    var day :- NumberThen(month.rest, IsDateEnd);
    Part(Date(year.value, month.value, day.value), day.rest)
  }

  datatype Hms = Hms(hour: int, min: int, sec: int)

  function ReadHour(s: Bytes): Part<Hms>
  {
    var hour :- NumberThen(s, IsAny);
    var min :- NumberThen(hour.rest, IsAny);
    var sec :- Number(min.rest);
    Part(Hms(hour.value, min.value, sec.value), sec.rest)
  }

  /** Milliseconds and zone behind a second. */
  function ReadTail(seconds: int, s: Bytes): Part<int>
  {
    var msec :- Fraction(s);
    var zone :- Zone(msec.rest);
    Part((seconds - zone.value * 60) * 1000 + msec.value, zone.rest)
  }

  /** `ccpon_unpack_date_time`; months outside the calendar index past the day table and are refused here. */
  function ReadIso(s: Bytes): Part<int>
  {
    var d :- ReadDay(s);
    var t :- ReadHour(d.rest);
    if !(1 <= d.value.month <= 12) then NoPart
    else
      var tm := Tm(d.value.year, d.value.month - 1, d.value.mday, t.value.hour, t.value.min, t.value.sec);
      ReadTail(TimeGm(tm), t.rest)
  }

  /** A time column is read if all of it is a date-time. */
  function ReadTime(s: Bytes): Option<int>
  {
    var r := ReadIso(s);
    if r.NoPart? || r.rest != [] then None else Some(Held(r.value))
  }

  // ---------------------------------------------------------------- reading what was printed

  lemma Pad2Value(n: nat)
    ensures Numeral(0, Pad2(n)) == n
  {
    DigitsValue(n);
    if n < 10 {
      assert Pad2(n)[1..] == Digits(n);
    }
  }

  /** Input at which the digits of a date stop. */
  predicate StopsDate(s: Bytes) { s == [] || !(IsDigit(s[0]) || s[0] == CHAR_X) }

  lemma DigitsRead(s: Bytes, rest: Bytes)
    requires s != [] && AllDigits(s) && Numeral(0, s) < TWO_32 && StopsDate(rest)
    ensures Number(s + rest) == Part(Wrap(Numeral(0, s), TWO_32), rest)
  {
    ScanDigits(StartScan(0), s, rest);
  }

  lemma FieldReads(n: nat, sep: byte, rest: Bytes, ok: byte -> bool)
    requires n < TWO_32 && StopsDate([sep]) && ok(sep)
    ensures NumberThen(Field(n, sep, rest), ok) == Part(Wrap(n, TWO_32), rest)
  {
    Pad2Value(n);
    DigitsRead(Pad2(n), [sep] + rest);
    assert ([sep] + rest)[1..] == rest;
  }

  lemma LastFieldReads(n: nat, rest: Bytes)
    requires n < TWO_31 && StopsDate(rest)
    ensures Number(Pad2(n) + rest) == Part(n, rest)
  {
    Pad2Value(n);
    DigitsRead(Pad2(n), rest);
  }

  lemma UnsignedYear(y: int)
    requires -TWO_31 <= y < TWO_31
    ensures Wrap(y % TWO_32, TWO_32) == y
  {
  }

  lemma DayReads(tm: Tm, rest: Bytes)
    requires ValidTm(tm) && -TWO_31 <= tm.year < TWO_31
    ensures ReadDay(Field(tm.year % TWO_32, MINUS, Field(tm.month + 1, MINUS, Field(tm.mday, TIME_MARK, rest))))
         == Part(Date(tm.year, tm.month + 1, tm.mday), rest)
  {
    var s2 := Field(tm.mday, TIME_MARK, rest);
    FieldReads(tm.year % TWO_32, MINUS, Field(tm.month + 1, MINUS, s2), IsDash);
    UnsignedYear(tm.year);
    FieldReads(tm.month + 1, MINUS, s2, IsDash);
    FieldReads(tm.mday, TIME_MARK, rest, IsDateEnd);
  }

  lemma HourReads(tm: Tm, rest: Bytes)
    requires ValidTm(tm) && StopsDate(rest)
    ensures ReadHour(Field(tm.hour, CLOCK_SEP, Field(tm.min, CLOCK_SEP, Pad2(tm.sec) + rest)))
         == Part(Hms(tm.hour, tm.min, tm.sec), rest)
  {
    var s5 := Pad2(tm.sec) + rest;
    FieldReads(tm.hour, CLOCK_SEP, Field(tm.min, CLOCK_SEP, s5), IsAny);
    FieldReads(tm.min, CLOCK_SEP, s5, IsAny);
    LastFieldReads(tm.sec, rest);
  }

  /** A printed date is read to the last field, whatever follows. */
  lemma DateReads(tm: Tm, rest: Bytes)
    requires ValidTm(tm) && -TWO_31 <= tm.year < TWO_31 && StopsDate(rest)
    ensures ReadIso(DateText(tm, CLOCK_SEP, CLOCK_SEP, rest)) == ReadTail(TimeGm(tm), rest)
  {
    hide Field, Pad2, ReadDay, ReadHour, ReadTail, TimeGm, StopsDate;
    DayReads(tm, Field(tm.hour, CLOCK_SEP, Field(tm.min, CLOCK_SEP, Pad2(tm.sec) + rest)));
    HourReads(tm, rest);
  }

  /** What is read from milliseconds in three places. */
  function Widened(msec: int, middle: byte): int { if msec < 10 then 10 * (middle - ZERO) + msec else msec }

  lemma ThreeDigits(a: byte, b: byte, d: byte)
    requires IsDigit(a) && IsDigit(b) && IsDigit(d)
    ensures Numeral(0, [a, b, d]) == 100 * (a - ZERO) + 10 * (b - ZERO) + (d - ZERO)
  {
    var s := [a, b, d];
    assert s[1..] == [b, d] && [b, d][1..] == [d] && [d][1..] == [];
    assert Numeral(10 * (a - ZERO) + (b - ZERO), [d]) == 100 * (a - ZERO) + 10 * (b - ZERO) + (d - ZERO);
  }

  lemma Pad3Value(n: nat, middle: byte)
    requires n < 1000 && IsDigit(middle)
    ensures var s := Pad3(n, middle); s != [] && AllDigits(s) && Numeral(0, s) == Widened(n, middle)
  {
    OneDigit(n);
    DigitsValue(n);
    if n < 10 {
      assert Pad3(n, middle) == [ZERO, middle, ZERO + n];
      ThreeDigits(ZERO, middle, ZERO + n);
    } else if n < 100 {
      assert Pad3(n, middle)[1..] == Digits(n);
    }
  }

  lemma FractionReads(n: nat, middle: byte, rest: Bytes)
    requires n < 1000 && IsDigit(middle) && StopsDate(rest)
    ensures Fraction([DOT] + Pad3(n, middle) + rest) == Part(Widened(n, middle), rest)
  {
    var s := [DOT] + Pad3(n, middle) + rest;
    assert s[1..] == Pad3(n, middle) + rest;
    Pad3Value(n, middle);
    DigitsRead(Pad3(n, middle), rest);
  }

  lemma MsecRange(ms: int)
    ensures -1000 < Msec(ms) < 1000 && (ms >= 0 ==> Msec(ms) == ms % 1000 && TruncDiv(ms, 1000) == ms / 1000)
    ensures ms < 0 ==> Msec(ms) <= 0 && (Msec(ms) == 0 <==> ms % 1000 == 0)
  {
  }

  /** The milliseconds that are read from a time column. */
  function MsecRead(msec: int, second: byte): int { if msec > 0 then Widened(msec, second) else 0 }

  lemma TailReads(msec: int, second: byte, seconds: int)
    requires msec < 1000 && IsDigit(second)
    ensures var tail := MsecText(msec, second, false) + [UTC_MARK];
      StopsDate(tail) && ReadTail(seconds, tail) == Part(seconds * 1000 + MsecRead(msec, second), [])
  {
    hide Pad3, Number, Widened;
    var z := [UTC_MARK];
    assert z[1..] == [];
    if msec > 0 {
      FractionReads(msec, second, z);
    } else {
      assert MsecText(msec, second, false) + z == z;
    }
  }

  lemma YearOfDay(d: Date)
    requires ValidDate(d) && -TWO_57 <= DayNumber(d) * 86400000 < TWO_57
    ensures -TWO_31 <= d.year < TWO_31
  {
    DayOfYearBounds(d);
  }

  lemma YearFits(ms: int)
    requires Held(ms) == ms
    ensures -TWO_31 <= TmOf(ms).year < TWO_31
  {
    var t := TruncDiv(ms, 1000);
    GmTimeIsValid(t);
    SecondsRange(ms);
    YearOfDay(Date(GmTime(t).year, GmTime(t).month, GmTime(t).mday));
  }

  lemma SecondsRange(ms: int)
    requires Held(ms) == ms
    ensures -TWO_57 <= TruncDiv(ms, 1000) / 86400 * 86400000 < TWO_57
  {
  }

  lemma TextOf(ms: int, tm: Tm)
    requires tm == TmOf(ms)
    ensures IsoText(ms, false, true)
         == DateText(tm, CLOCK_SEP, CLOCK_SEP, MsecText(Msec(ms), SecondDigit(tm.year), false) + [UTC_MARK])
  {
  }

  /** The time that is read from the text of a time: its second as `timegm` counts it, and the milliseconds shown. */
  function ShownTime(ms: int): int { TimeGm(TmOf(ms)) * 1000 + MsecRead(Msec(ms), SecondDigit(TmOf(ms).year)) }

  lemma PartsRead(tm: Tm, tail: Bytes, x: int)
    requires ValidTm(tm) && -TWO_31 <= tm.year < TWO_31 && StopsDate(tail)
    requires ReadTail(TimeGm(tm), tail) == Part(x, [])
    ensures ReadTime(DateText(tm, CLOCK_SEP, CLOCK_SEP, tail)) == Some(Held(x))
  {
    DateReads(tm, tail);
  }

  lemma HeldTwice(m: int)
    ensures Held(Held(m)) == Held(m)
  {
  }

  /** Every time column is read. */
  lemma TimeReads(m: int)
    ensures ReadTime(TimeText(m)) == Some(Held(ShownTime(Held(m))))
  {
    hide TmOf, Msec, DateText, MsecText, ReadTime, ReadTail, TimeGm, SecondDigit, Held;
    var ms := Held(m);
    HeldTwice(m);
    YearFits(ms);
    MsecRange(ms);
    TextOf(ms, TmOf(ms));
    TailReads(Msec(ms), SecondDigit(TmOf(ms).year), TimeGm(TmOf(ms)));
    PartsRead(TmOf(ms), MsecText(Msec(ms), SecondDigit(TmOf(ms).year), false) + [UTC_MARK], ShownTime(ms));
  }

  // ---------------------------------------------------------------- which times survive

  /** Milliseconds that are printed as they are: none, two or three digits, or a zero behind the year's first digit. */
  predicate MsecKept(msec: int, year: int) { msec == 0 || msec >= 10 || SecondDigit(year) == ZERO }

  /** From 1970 on, the milliseconds decide; before, only whole seconds survive, and only where `timegm` is right. */
  predicate KeptIn(m: int, year: int)
  {
    if m >= 0 then MsecKept(m % 1000, year) else m % 1000 == 0 && (year >= 1 || IsLeap(year - 1))
  }

  predicate TimeKept(m: int) { Held(m) == m && KeptIn(m, TmOf(m).year) }

  lemma CodeDayIsNear(d: Date)
    requires ValidDate(d)
    ensures CodeDay(d) - DayNumber(d) == if d.year >= 1 || IsLeap(d.year - 1) then 0 else 1
  {
    DaysFrom0Differs(d.year);
    MultiplesNest(d.year - 1);
  }

  /** The second of a broken-down time is right, or a day late. */
  lemma SecondIsNear(tm: Tm, t: int)
    requires ValidTm(tm) && DayNumber(Date(tm.year, tm.month, tm.mday)) == t / 86400
    requires (tm.hour * 60 + tm.min) * 60 + tm.sec == t % 86400
    ensures TimeGm(tm) - t == if tm.year >= 1 || IsLeap(tm.year - 1) then 0 else 86400
  {
    CodeDayIsNear(Date(tm.year, tm.month, tm.mday));
  }

  lemma YearFromDay(d: Date)
    requires ValidDate(d) && DayNumber(d) >= 0
    ensures d.year >= 1970
  {
    DayOfYearBounds(d);
    DaysToYearIsTheCalendar(1970);
    if d.year < 1970 {
      YearsAreApart(d.year, 1970);
    }
  }

  lemma SecondOf(ms: int)
    ensures var tm := TmOf(ms);
      TimeGm(tm) - TruncDiv(ms, 1000) == if tm.year >= 1 || IsLeap(tm.year - 1) then 0 else 86400
    ensures ms >= 0 ==> TmOf(ms).year >= 1970
  {
    hide GmTime, TimeGm, IsLeap, DayNumber;
    var t := TruncDiv(ms, 1000);
    GmTimeIsValid(t);
    SecondIsNear(GmTime(t), t);
    if ms >= 0 {
      YearFromDay(Date(GmTime(t).year, GmTime(t).month, GmTime(t).mday));
    }
  }

  lemma HeldApart(x: int, m: int)
    requires Held(m) == m && -TWO_57 < x - m < TWO_57
    ensures Held(x) == m <==> x == m
  {
  }

  lemma RereadDiffers(m: int, tm: Tm, t: int, msec: int)
    requires ValidTm(tm) && m == 1000 * t + msec && -1000 < msec < 1000
    requires (m < 0 ==> msec <= 0) && (m >= 0 ==> msec >= 0)
    requires TimeGm(tm) - t == if tm.year >= 1 || IsLeap(tm.year - 1) then 0 else 86400
    requires m >= 0 ==> tm.year >= 1970
    ensures var x := TimeGm(tm) * 1000 + MsecRead(msec, SecondDigit(tm.year));
      -TWO_57 < x - m < TWO_57 && (x == m <==> KeptIn(m, tm.year))
  {
    ThousandParts(m, t, msec);
  }

  lemma ThousandParts(m: int, t: int, msec: int)
    requires m == 1000 * t + msec && -1000 < msec < 1000
    ensures (msec >= 0 ==> m % 1000 == msec) && (m % 1000 == 0 <==> msec == 0)
  {
  }

  lemma RereadIsTimeIff(m: int)
    ensures -TWO_57 < ShownTime(m) - m < TWO_57 && (ShownTime(m) == m <==> KeptIn(m, TmOf(m).year))
  {
    SecondOf(m);
    MsecRange(m);
    RereadDiffers(m, TmOf(m), TruncDiv(m, 1000), Msec(m));
  }

  /** The text of a time is read as that time exactly if it is kept. */
  lemma TimeSurvivesIff(m: int)
    ensures ReadTime(TimeText(m)) == Some(m) <==> TimeKept(m)
  {
    TimeReads(m);
    RereadIsTimeIff(m);
    if Held(m) == m {
      HeldApart(ShownTime(m), m);
    } else {
      HeldTwice(ShownTime(Held(m)));
    }
  }

  // ---------------------------------------------------------------- offsets from UTC

  /** Hours, and minutes if there are any. */
  function ZoneText(minutes: int): Bytes
  {
    if minutes == 0 then [UTC_MARK]
    else
      [if minutes < 0 then MINUS else PLUS] + Pad2(Abs(minutes) / 60)
      + if Abs(minutes) % 60 == 0 then [] else Pad2(Abs(minutes) % 60)
  }

  lemma DigitsScan(s: Bytes, rest: Bytes)
    requires s != [] && AllDigits(s) && Numeral(0, s) < TWO_32 && StopsDate(rest)
    ensures var r := ScanInt(StartScan(0), s + rest);
      r.rest == rest && r.st.n == |s| && r.st.value == Numeral(0, s) && !r.st.neg
  {
    ScanDigits(StartScan(0), s, rest);
  }

  lemma PadTwo(n: nat)
    requires n < 100
    ensures |Pad2(n)| == 2
  {
    PadIsTwoPlaces(n);
  }

  lemma HoursAndMinutes(h: nat, m: nat)
    requires h < 100 && m < 100
    ensures Numeral(0, Pad2(h)) == h && Numeral(0, Pad2(h) + Pad2(m)) == 100 * h + m
  {
    Pad2Value(h);
    Pad2Value(m);
    PadTwo(m);
    NumeralConcat(0, Pad2(h), Pad2(m));
    TwoMore(h, Pad2(m));
  }

  lemma TwoMore(acc: nat, s: Bytes)
    requires |s| == 2 && AllDigits(s)
    ensures Numeral(acc, s) == 100 * acc + Numeral(0, s)
  {
    var a, b, last := s[0] - ZERO, s[1] - ZERO, s[1..];
    assert IsDigit(s[0]) && IsDigit(s[1]) && last == [s[1]] && last[1..] == [];
    assert Numeral(acc, s) == Numeral(10 * acc + a, last) == 10 * (10 * acc + a) + b;
    assert Numeral(0, s) == Numeral(a, last) == 10 * a + b;
  }

  lemma ZoneReads(minutes: int, rest: Bytes)
    requires Abs(minutes) < 6000 && StopsDate(rest)
    ensures Zone(ZoneText(minutes) + rest) == Part(minutes, rest)
  {
    hide Pad2, Numeral, ScanInt;
    var h, m, s := Abs(minutes) / 60, Abs(minutes) % 60, ZoneText(minutes) + rest;
    HoursAndMinutes(h, m);
    PadTwo(h);
    PadTwo(m);
    if minutes == 0 {
      assert s[1..] == rest;
    } else {
      var digits := if m == 0 then Pad2(h) else Pad2(h) + Pad2(m);
      assert s[1..] == digits + rest;
      DigitsScan(digits, rest);
      DividesHundred(h, m);
    }
  }

  lemma DividesHundred(h: nat, m: nat)
    requires m < 100
    ensures TruncDiv(100 * h + m, 100) == h
  {
  }

  /** The broken-down local second. */
  function LocalTm(ms: int, minutes: int): (tm: Tm)
    ensures ValidTm(tm)
  {
    GmTimeIsValid(TruncDiv(ms, 1000) + 60 * minutes);
    GmTime(TruncDiv(ms, 1000) + 60 * minutes)
  }

  /** The text of a time with its offset: local time, milliseconds if there are any, and the offset. */
  function OffsetText(ms: int, minutes: int): Bytes
  {
    var tm := LocalTm(ms, minutes);
    DateText(tm, CLOCK_SEP, CLOCK_SEP, MsecText(Msec(ms), SecondDigit(tm.year), false) + ZoneText(minutes))
  }

  lemma ZoneStops(minutes: int)
    ensures StopsDate(ZoneText(minutes)) && ZoneText(minutes) != [] && ZoneText(minutes)[0] != DOT
  {
  }

  lemma OffsetTailReads(msec: int, second: byte, seconds: int, minutes: int)
    requires 0 <= msec < 1000 && IsDigit(second) && Abs(minutes) < 6000
    ensures var tail := MsecText(msec, second, false) + ZoneText(minutes);
      StopsDate(tail) && ReadTail(seconds, tail) == Part((seconds - 60 * minutes) * 1000 + MsecRead(msec, second), [])
  {
    hide Pad3, Number, Widened, ZoneText, Zone;
    var z := ZoneText(minutes);
    var end: Bytes := [];
    ZoneStops(minutes);
    ZoneReads(minutes, end);
    assert z + end == z;
    if msec > 0 {
      FractionReads(msec, second, z);
    } else {
      assert MsecText(msec, second, false) + z == z;
    }
  }

  lemma OffsetReads(ms: int, minutes: int, tm: Tm, seconds: int)
    requires Abs(minutes) < 6000 && ms >= 0 && tm == LocalTm(ms, minutes) && -TWO_31 <= tm.year < TWO_31
    requires TimeGm(tm) == seconds
    ensures ReadIso(OffsetText(ms, minutes))
         == Part((seconds - 60 * minutes) * 1000 + MsecRead(ms % 1000, SecondDigit(tm.year)), [])
  {
    MsecRange(ms);
    hide DateText, MsecText, ZoneText, TimeGm, GmTime, SecondDigit, ReadIso, ReadTail, Msec, MsecRead, LocalTm;
    OffsetTailReads(Msec(ms), SecondDigit(tm.year), seconds, minutes);
    DateReads(tm, MsecText(Msec(ms), SecondDigit(tm.year), false) + ZoneText(minutes));
  }

  /** From 1970 on, a time with an offset is read back exactly if its milliseconds survive in the local year. */
  lemma OffsetSurvivesIff(ms: int, minutes: int)
    requires Abs(minutes) < 6000 && ms >= 0 && ms + 60000 * minutes >= 0 && LocalTm(ms, minutes).year < TWO_31
    ensures var r := ReadIso(OffsetText(ms, minutes));
      r.Part? && r.rest == [] && (r.value == ms <==> MsecKept(ms % 1000, LocalTm(ms, minutes).year))
  {
    hide TimeGm, GmTime, ReadIso, OffsetText, MsecRead, SecondDigit, MsecKept, LocalTm;
    LocalSecond(ms, minutes);
    OffsetReads(ms, minutes, LocalTm(ms, minutes), ms / 1000 + 60 * minutes);
    MsecReadIff(ms % 1000, LocalTm(ms, minutes).year);
  }

  lemma LocalSecond(ms: int, minutes: int)
    requires ms >= 0 && ms + 60000 * minutes >= 0
    ensures var tm := LocalTm(ms, minutes); TimeGm(tm) == ms / 1000 + 60 * minutes && tm.year >= 1970
  {
    hide TimeGm, GmTime;
    var t := TruncDiv(ms, 1000) + 60 * minutes;
    MsecRange(ms);
    TimeGmInvertsGmTimeIff(t);
    LocalYear(t);
  }

  lemma MsecReadIff(msec: nat, year: int)
    requires msec < 1000
    ensures MsecRead(msec, SecondDigit(year)) == msec <==> MsecKept(msec, year)
  {
    hide SecondDigit;
  }

  lemma LocalYear(t: int)
    requires t >= 0
    ensures GmTime(t).year >= 1970
  {
    GmTimeIsValid(t);
    YearFromDay(Date(GmTime(t).year, GmTime(t).month, GmTime(t).mday));
  }

  // ---------------------------------------------------------------- what the text looks like

  /** The two digits of a number below a hundred. */
  function TwoPlaces(n: nat): Bytes
    requires n < 100
  {
    [ZERO + n / 10, ZERO + n % 10]
  }

  lemma PadIsTwoPlaces(n: nat)
    requires n < 100
    ensures Pad2(n) == TwoPlaces(n)
  {
    if n >= 10 {
      assert Digits(n) == Digits(n / 10) + [ZERO + n % 10];
    }
  }

  lemma FieldText(n: nat, sep: byte, rest: Bytes)
    requires n < 100
    ensures Field(n, sep, rest) == TwoPlaces(n) + [sep] + rest
  {
    PadIsTwoPlaces(n);
  }

  lemma YearText(year: nat, sep: byte, rest: Bytes)
    requires 1000 <= year < 10000
    ensures Field(year, sep, rest) == TwoPlaces(year / 100) + TwoPlaces(year % 100) + [sep] + rest
  {
    FourDigits(year);
    YearDigits(year);
    hide Pad2;
    assert Pad2(year) == TwoPlaces(year / 100) + TwoPlaces(year % 100);
    assert Pad2(year) + ([sep] + rest) == Pad2(year) + [sep] + rest;
  }

  lemma YearDigits(year: nat)
    requires 1000 <= year < 10000
    ensures year % TWO_32 == year && year / 100 / 10 == year / 1000
    ensures year / 10 % 10 == year % 100 / 10 && year % 10 == year % 100 % 10
  {
  }

  /** ISO 8601: year, month from 1, day, hour, minute and second, in places of their own. */
  lemma DateLooks(tm: Tm, rest: Bytes)
    requires ValidTm(tm) && 1000 <= tm.year < 10000
    ensures DateText(tm, CLOCK_SEP, CLOCK_SEP, rest)
         == TwoPlaces(tm.year / 100) + TwoPlaces(tm.year % 100) + [MINUS] + TwoPlaces(tm.month + 1) + [MINUS]
          + TwoPlaces(tm.mday) + [TIME_MARK] + TwoPlaces(tm.hour) + [CLOCK_SEP] + TwoPlaces(tm.min) + [CLOCK_SEP]
          + TwoPlaces(tm.sec) + rest
  {
    hide Pad2, TwoPlaces, Field;
    var sec := Pad2(tm.sec) + rest;
    var min := Field(tm.min, CLOCK_SEP, sec);
    var hour := Field(tm.hour, CLOCK_SEP, min);
    var day := Field(tm.mday, TIME_MARK, hour);
    var month := Field(tm.month + 1, MINUS, day);
    PadIsTwoPlaces(tm.sec);
    FieldText(tm.min, CLOCK_SEP, sec);
    FieldText(tm.hour, CLOCK_SEP, min);
    FieldText(tm.mday, TIME_MARK, hour);
    FieldText(tm.month + 1, MINUS, day);
    YearText(tm.year, MINUS, month);
  }

  /** The epoch of ChainPack date-times is the beginning of 2 February 2018. */
  lemma ShvEpochIs()
    ensures TmOf(DateTimeCode.SHV_EPOCH_MSEC) == Tm(2018, 1, 2, 0, 0, 0)
    ensures TimeGm(Tm(2018, 1, 2, 0, 0, 0)) * 1000 == DateTimeCode.SHV_EPOCH_MSEC
  {
    EpochDayIs();
    hide CivilFromDays;
    assert TruncDiv(DateTimeCode.SHV_EPOCH_MSEC, 1000) == 1517529600 == 17564 * 86400;
    DivModUnique(1517529600, 86400, 17564, 0);
  }

  lemma EpochDayIs()
    ensures CivilFromDays(17564) == Date(2018, 1, 2)
  {
    assert Era(737032) == 5 && YearOfEra(6547) == 17;
    assert DayOfYear(6547) == 338;
  }

  // ---------------------------------------------------------------- names of journal files

  const FILE_EXT: Bytes := [46, 108, 111, 103, 50]   // .log2

  /** The first millisecond whose year has five digits: file names put their separators into wrong places from there. */
  const YEAR_10000 := 253402300800000

  function FileName(ms: int): Bytes
  {
    var t := IsoText(Held(ms), true, false);
    (if |t| <= 19 then t else t[13 := MINUS][16 := MINUS][19 := MINUS]) + FILE_EXT
  }

  /** `fileNameToFileMsec` */
  function FileMsec(name: Bytes): Option<int>
  {
    if |name| <= 19 then None
    else
      var r := ReadIso(name[13 := CLOCK_SEP][16 := CLOCK_SEP][19 := DOT]);
      if r.NoPart? || Held(r.value) == 0 then None else Some(Held(r.value))
  }

  /** The time that the name of a file shows. */
  function NamedTime(ms: int): int { ms - ms % 1000 + Widened(ms % 1000, SecondDigit(TmOf(ms).year)) }

  /** Start times that the file's name shows as they are. */
  predicate NameKept(ms: int) { ms % 1000 >= 10 || SecondDigit(TmOf(ms).year) == ZERO }

  lemma NameIsKeptIff(ms: int)
    ensures NamedTime(ms) == ms <==> NameKept(ms)
  {
  }

  lemma YearBefore(d: Date)
    requires ValidDate(d) && DayNumber(d) < 2932897
    ensures d.year < 10000
  {
    DayOfYearBounds(d);
    assert DaysToYear(10000) == 2932897;
    if d.year >= 10000 {
      if d.year > 10000 {
        YearsAreApart(10000, d.year);
      }
    }
  }

  lemma YearOfName(ms: int)
    requires 0 <= ms < YEAR_10000
    ensures 1970 <= TmOf(ms).year < 10000
  {
    var t := TruncDiv(ms, 1000);
    SecondOf(ms);
    GmTimeIsValid(t);
    MsecRange(ms);
    YearBefore(Date(GmTime(t).year, GmTime(t).month, GmTime(t).mday));
  }

  /** A year of four digits. */
  lemma FourDigits(y: int)
    requires 1000 <= y < 10000
    ensures Pad2(y % TWO_32) == [ZERO + y / 1000, ZERO + y / 100 % 10, ZERO + y / 10 % 10, ZERO + y % 10]
  {
    assert y % TWO_32 == y;
    OneDigit(y / 100);
    assert Digits(y / 10) == Digits(y / 100) + [ZERO + y / 10 % 10];
    assert Digits(y) == Digits(y / 10) + [ZERO + y % 10];
  }

  lemma SeparatorPlaces(tm: Tm, rest: Bytes)
    requires ValidTm(tm) && 1000 <= tm.year < 10000
    ensures var t := DateText(tm, CLOCK_SEP, CLOCK_SEP, [DOT] + rest);
      |t| > 19 && t[13] == t[16] == CLOCK_SEP && t[19] == DOT
  {
    DateByFields(tm, [DOT] + rest);
    FourDigits(tm.year);
    DateFits(tm);
    assert |DayFields(tm)| == 11 && |HourFields(tm)| == 8;
    assert HourFields(tm)[2] == CLOCK_SEP && HourFields(tm)[5] == CLOCK_SEP;
  }

  lemma Restored(t: Bytes, ext: Bytes)
    requires |t| > 19 && t[13] == t[16] == CLOCK_SEP && t[19] == DOT
    ensures (t[13 := MINUS][16 := MINUS][19 := MINUS] + ext)[13 := CLOCK_SEP][16 := CLOCK_SEP][19 := DOT] == t + ext
  {
  }

  lemma DateThen(tm: Tm, a: Bytes, b: Bytes)
    requires ValidTm(tm)
    ensures DateText(tm, CLOCK_SEP, CLOCK_SEP, a) + b == DateText(tm, CLOCK_SEP, CLOCK_SEP, a + b)
  {
    hide DateText, DayFields, HourFields;
    DateByFields(tm, a);
    DateByFields(tm, a + b);
  }

  lemma NameTail(msec: nat, second: byte, seconds: int)
    requires msec < 1000 && IsDigit(second)
    ensures var tail := MsecText(msec, second, true) + FILE_EXT;
      StopsDate(tail) && ReadTail(seconds, tail) == Part(seconds * 1000 + Widened(msec, second), FILE_EXT)
  {
    hide Pad3, Number, Widened;
    FractionReads(msec, second, FILE_EXT);
  }

  lemma NameText(ms: int, tm: Tm)
    requires 0 <= ms < YEAR_10000 && tm == TmOf(ms)
    ensures IsoText(Held(ms), true, false)
         == DateText(tm, CLOCK_SEP, CLOCK_SEP, MsecText(ms % 1000, SecondDigit(tm.year), true))
  {
    MsecRange(ms);
    var tail := MsecText(ms % 1000, SecondDigit(tm.year), true);
    assert tail + [] == tail;
  }

  lemma RestoredName(tm: Tm, msec: nat, t: Bytes)
    requires ValidTm(tm) && 1970 <= tm.year < 10000 && msec < 1000
    requires t == DateText(tm, CLOCK_SEP, CLOCK_SEP, MsecText(msec, SecondDigit(tm.year), true))
    ensures |t| > 19
    ensures (t[13 := MINUS][16 := MINUS][19 := MINUS] + FILE_EXT)[13 := CLOCK_SEP][16 := CLOCK_SEP][19 := DOT]
         == DateText(tm, CLOCK_SEP, CLOCK_SEP, MsecText(msec, SecondDigit(tm.year), true) + FILE_EXT)
  {
    SeparatorPlaces(tm, Pad3(msec % TWO_32, SecondDigit(tm.year)));
    Restored(t, FILE_EXT);
    DateThen(tm, MsecText(msec, SecondDigit(tm.year), true), FILE_EXT);
  }

  lemma PartsOfName(tm: Tm, msec: nat, t: Bytes, x: int)
    requires ValidTm(tm) && 1970 <= tm.year < 10000 && msec < 1000
    requires t == DateText(tm, CLOCK_SEP, CLOCK_SEP, MsecText(msec, SecondDigit(tm.year), true))
    requires x == TimeGm(tm) * 1000 + Widened(msec, SecondDigit(tm.year)) && 0 < x < TWO_57 / 2
    ensures |t| > 19 && FileMsec(t[13 := MINUS][16 := MINUS][19 := MINUS] + FILE_EXT) == Some(x)
  {
    hide DateText, MsecText, TimeGm, SecondDigit, Widened, GmTime;
    var tail := MsecText(msec, SecondDigit(tm.year), true) + FILE_EXT;
    RestoredName(tm, msec, t);
    NameTail(msec, SecondDigit(tm.year), TimeGm(tm));
    DateReads(tm, tail);
  }

  lemma NamedTimeParts(ms: int, seconds: int, second: byte)
    requires 0 < ms < YEAR_10000 && seconds == ms / 1000 && IsDigit(second)
    ensures ms - ms % 1000 + Widened(ms % 1000, second) == seconds * 1000 + Widened(ms % 1000, second)
    ensures 0 < seconds * 1000 + Widened(ms % 1000, second) < TWO_57 / 2
  {
  }

  /** The name of a file is read, as the time it shows. */
  lemma NameReads(ms: int)
    requires 0 < ms < YEAR_10000
    ensures FileMsec(FileName(ms)) == Some(NamedTime(ms))
  {
    SecondOf(ms);
    MsecRange(ms);
    YearOfName(ms);
    NameText(ms, TmOf(ms));
    NamedTimeParts(ms, TimeGm(TmOf(ms)), SecondDigit(TmOf(ms).year));
    PartsOfName(TmOf(ms), ms % 1000, IsoText(Held(ms), true, false), NamedTime(ms));
  }

  /** A name shows the time of its file exactly if the milliseconds have two digits, or the year's second digit is 0. */
  lemma NameSurvivesIff(ms: int)
    requires 0 < ms < YEAR_10000
    ensures FileMsec(FileName(ms)) == Some(ms) <==> NameKept(ms)
    ensures NameKept(ms) <==> ms % 1000 >= 10 || TmOf(ms).year / 100 % 10 == 0
  {
    NameReads(ms);
    NameIsKeptIff(ms);
    YearOfName(ms);
    FourDigits(TmOf(ms).year);
  }

  lemma WidenedTwice(msec: int, second: byte)
    requires 0 <= msec < 1000 && IsDigit(second)
    ensures var w := Widened(msec, second);
      0 <= w < 1000 && Widened(w, second) == w && Pad3(w, second) == Pad3(msec, second)
    ensures msec <= Widened(msec, second) <= msec + 90
  {
    OneDigit(msec);
    OneDigit(Widened(msec, second));
  }

  lemma SameSecond(a: int, b: int)
    requires a >= 0 && b >= 0 && a / 1000 == b / 1000
    ensures TmOf(a) == TmOf(b)
  {
  }

  /** The time shown is a little later, lies in the same second and is shown as it is. */
  lemma NamedTimeShows(ms: int)
    requires ms >= 0
    ensures ms <= NamedTime(ms) <= ms + 90 && NamedTime(ms) / 1000 == ms / 1000
    ensures TmOf(NamedTime(ms)) == TmOf(ms) && NamedTime(NamedTime(ms)) == NamedTime(ms)
  {
    var second := SecondDigit(TmOf(ms).year);
    WidenedTwice(ms % 1000, second);
    var w := Widened(ms % 1000, second);
    DivModUnique(NamedTime(ms), 1000, ms / 1000, w);
    SameSecond(ms, NamedTime(ms));
  }

  lemma SameTextSameName(a: int, b: int, tm: Tm)
    requires 0 <= a < YEAR_10000 && 0 <= b < YEAR_10000 && TmOf(a) == tm == TmOf(b)
    requires Pad3(a % 1000, SecondDigit(tm.year)) == Pad3(b % 1000, SecondDigit(tm.year))
    ensures IsoText(Held(a), true, false) == IsoText(Held(b), true, false)
  {
    NameText(a, tm);
    NameText(b, tm);
    SmallMod(a % 1000, TWO_32);
    SmallMod(b % 1000, TWO_32);
  }

  lemma NameBefore10000(ms: int, w: int)
    requires 0 <= ms < YEAR_10000 && w / 1000 == ms / 1000
    ensures 0 <= w < YEAR_10000
  {
  }

  lemma SameName(ms: int)
    requires 0 <= ms < YEAR_10000
    ensures FileName(NamedTime(ms)) == FileName(ms)
  {
    NamedTimeShows(ms);
    WidenedTwice(ms % 1000, SecondDigit(TmOf(ms).year));
    DivModUnique(NamedTime(ms), 1000, ms / 1000, Widened(ms % 1000, SecondDigit(TmOf(ms).year)));
    NameBefore10000(ms, NamedTime(ms));
    SameTextSameName(NamedTime(ms), ms, TmOf(ms));
  }

  /** Two start times give one file exactly if their names show one time. */
  lemma NamesAgreeIff(a: int, b: int)
    requires 0 < a < YEAR_10000 && 0 < b < YEAR_10000
    ensures FileName(a) == FileName(b) <==> NamedTime(a) == NamedTime(b)
  {
    NameReads(a);
    NameReads(b);
    SameName(a);
    SameName(b);
  }

  /** Times with one name are ten to ninety milliseconds apart, and the earlier one is not shown as it is. */
  lemma NamesakesAreApart(a: int, b: int)
    requires 0 <= a < b && NamedTime(a) == NamedTime(b)
    ensures a + 10 <= b <= a + 90 && !NameKept(a)
  {
    NamedTimeShows(a);
    NamedTimeShows(b);
    SameSecond(a, b);
  }

  lemma YearBetween(d: Date)
    requires ValidDate(d) && DaysToYear(2000) <= DayNumber(d) < DaysToYear(2100)
    ensures 2000 <= d.year < 2100
  {
    DayOfYearBounds(d);
    if d.year < 2000 {
      YearsAreApart(d.year, 2000);
    } else if d.year > 2100 {
      YearsAreApart(2100, d.year);
    }
  }

  lemma CenturyYear(ms: int)
    requires 946684800000 <= ms < 4102444800000
    ensures 2000 <= TmOf(ms).year < 2100
  {
    var t := TruncDiv(ms, 1000);
    GmTimeIsValid(t);
    MsecRange(ms);
    assert DaysToYear(2000) == 10957 && DaysToYear(2100) == 47482;
    YearBetween(Date(GmTime(t).year, GmTime(t).month, GmTime(t).mday));
  }

  lemma ZeroInCentury(year: int)
    requires 2000 <= year < 2100
    ensures SecondDigit(year) == ZERO
  {
    FourDigits(year);
  }

  /** In the years 2000 to 2099 nothing is lost: every time survives as a row's and as a name. */
  lemma ThisCenturySurvives(ms: int)
    requires 946684800000 <= ms < 4102444800000
    ensures TimeKept(ms) && NameKept(ms)
  {
    CenturyYear(ms);
    ZeroInCentury(TmOf(ms).year);
  }

  lemma EpochDay(d: Date)
    requires ValidDate(d) && DayNumber(d) == 0
    ensures d.year == 1970
  {
    DaysToYearIsTheCalendar(1970);
    DayNumberIsInjective(d, Date(1970, 0, 1));
  }

  lemma FirstDay(ms: int)
    requires 0 <= ms < 86400000
    ensures TmOf(ms).year == 1970
  {
    var t := TruncDiv(ms, 1000);
    GmTimeIsValid(t);
    MsecRange(ms);
    EpochDay(Date(GmTime(t).year, GmTime(t).month, GmTime(t).mday));
  }

  /** On the first day of 1970, milliseconds 0 to 9 are shown as 90 to 99. */
  lemma ShownIn1970(ms: int)
    requires 0 <= ms < 86400000
    ensures NamedTime(ms) == if ms % 1000 < 10 then ms + 90 else ms
  {
    FirstDay(ms);
    NineIn1970();
  }

  lemma NineIn1970()
    ensures SecondDigit(1970) == ZERO + 9
  {
    FourDigits(1970);
  }
}
