/** Civil dates and seconds since the epoch (libshvchainpack/c/ccpon.c), leap seconds ignored. */
module Calendar {
  import opened ByteStrings

  /** Broken-down time with the full year; month is 0 to 11. */
  datatype Tm = Tm(year: int, month: int, mday: int, hour: int, min: int, sec: int)

  // ---------------------------------------------------------------- the code

  predicate IsLeap(y: int)
  {
    y % 4 == 0 && (y % 100 != 0 || y % 400 == 0)
  }

  /** C division truncates, which differs from the leap-year count for years before 1. */
  function DaysFrom0(year: int): int
  {
    365 * (year - 1) + TruncDiv(year - 1, 400) - TruncDiv(year - 1, 100) + TruncDiv(year - 1, 4)
  }

  const CUMULATIVE_DAYS: seq<int> := [0, 31, 59, 90, 120, 151, 181, 212, 243, 273, 304, 334]
  const CUMULATIVE_DAYS_LEAP: seq<int> := [0, 31, 60, 91, 121, 152, 182, 213, 244, 274, 305, 335]

  function DaysBeforeMonth(year: int, month: int): int
    requires 0 <= month < 12
  {
    if IsLeap(year) then CUMULATIVE_DAYS_LEAP[month] else CUMULATIVE_DAYS[month]
  }

  function DaysFrom1Jan(year: int, month: int, mday: int): int
    requires 0 <= month < 12
  {
    DaysBeforeMonth(year, month) + mday - 1
  }

  /** `ccpon_timegm` */
  function TimeGm(tm: Tm): int
    requires 0 <= tm.month < 12
  {
    var days := DaysFrom0(tm.year) - DaysFrom0(1970) + DaysFrom1Jan(tm.year, tm.month, tm.mday);
    ((days * 24 + tm.hour) * 60 + tm.min) * 60 + tm.sec
  }

  /** The year of the era and the day of that March-based year. */
  function YearOfEra(doe: nat): int
  {
    (doe - doe / 1460 + doe / 36524 - doe / 146096) / 365
  }

  datatype Date = Date(year: int, month: int, mday: int)

  /** Date of a day of a March-based year, `y` being the year in which that March lies. */
  function DateOfDay(y: int, doy: int): Date
  {
    var mp := (5 * doy + 2) / 153;
    var d := doy - (153 * mp + 2) / 5 + 1;
    var m := if mp < 10 then mp + 3 else mp - 9;
    Date(y + (if m <= 2 then 1 else 0), m - 1, d)
  }

  function DayOfYear(doe: nat): int
  {
    var yoe := YearOfEra(doe);
    doe - (365 * yoe + yoe / 4 - yoe / 100)
  }

  /** The 400-year era of a day: the shift of negative days makes C division round down. */
  function Era(z: int): (era: int)
    ensures era * 146097 <= z < (era + 1) * 146097
  {
    if z >= 0 then TruncDiv(z, 146097) else TruncDiv(z - 146096, 146097)
  }

  /** `civil_from_days` */
  function CivilFromDays(days: int): Date
  {
    var era := Era(days + 719468);
    var doe := days + 719468 - era * 146097;
    DateOfDay(YearOfEra(doe) + era * 400, DayOfYear(doe))
  }

  /** `ccpon_gmtime` */
  function GmTime(epochSec: int): Tm
  {
    var q := TruncDiv(epochSec, 86400);
    var r := epochSec - 86400 * q;
    var days := if r < 0 then q - 1 else q;
    var hms := if r < 0 then 86400 + r else r;
    var date := CivilFromDays(days);
    Tm(date.year, date.month, date.mday, hms / 3600, hms % 3600 / 60, hms % 3600 % 60)
  }

  // ---------------------------------------------------------------- the calendar

  function DaysInMonth(year: int, month: int): int
    requires 0 <= month < 12
  {
    if month == 1 then (if IsLeap(year) then 29 else 28)
    else if month == 3 || month == 5 || month == 8 || month == 10 then 30
    else 31
  }

  predicate ValidDate(d: Date)
  {
    0 <= d.month < 12 && 1 <= d.mday <= DaysInMonth(d.year, d.month)
  }

  predicate ValidTm(tm: Tm)
  {
    ValidDate(Date(tm.year, tm.month, tm.mday)) && 0 <= tm.hour < 24 && 0 <= tm.min < 60 && 0 <= tm.sec < 60
  }

  /** Leap years up to and including `y`, counted from year 1 and negatively before it. */
  function LeapsThrough(y: int): int { y / 4 - y / 100 + y / 400 }

  lemma QuotientStep(y: int, k: int)
    requires k > 1
    ensures y / k - (y - 1) / k == if y % k == 0 then 1 else 0
  {
    var q, r := y / k, y % k;
    assert y == q * k + r;
    if r == 0 {
      MulDistributes(q, 1, k);
      DivModUnique(y - 1, k, q - 1, k - 1);
    } else {
      DivModUnique(y - 1, k, q, r - 1);
    }
  }

  lemma LeapsThroughCounts(y: int)
    ensures LeapsThrough(y) - LeapsThrough(y - 1) == if IsLeap(y) then 1 else 0
  {
    QuotientStep(y, 4);
    QuotientStep(y, 100);
    QuotientStep(y, 400);
  }

  /** Days from 1 January 1970 to 1 January of `year` in the proleptic Gregorian calendar. */
  function DaysToYear(year: int): int { 365 * (year - 1970) + LeapsThrough(year - 1) - 477 }

  function DayNumber(d: Date): int
    requires 0 <= d.month < 12
  {
    DaysToYear(d.year) + DaysFrom1Jan(d.year, d.month, d.mday)
  }

  /** The reference is anchored at the epoch and every year is 365 or 366 days long. */
  lemma DaysToYearIsTheCalendar(year: int)
    ensures DaysToYear(1970) == 0
    ensures DaysToYear(year + 1) - DaysToYear(year) == if IsLeap(year) then 366 else 365
  {
    LeapsThroughCounts(year);
  }

  /** The cumulative tables are the running sums of the month lengths. */
  lemma CumulativeDaysAreSums(year: int, month: int)
    requires 0 <= month < 12
    ensures DaysBeforeMonth(year, 0) == 0
    ensures DaysBeforeMonth(year, month) + DaysInMonth(year, month)
         == if month == 11 then (if IsLeap(year) then 366 else 365) else DaysBeforeMonth(year, month + 1)
  {
  }

  // ---------------------------------------------------------------- era arithmetic

  /** A day of the era by century, four-year cycle and day of the cycle. */
  lemma YearOfEraByParts(c: nat, q: nat, r: nat, t: nat)
    requires c < 4 && q < 25 && r <= 1460 && t == (if r < 1095 then r / 365 else 3)
    requires q == 24 && r == 1460 ==> c == 3
    ensures YearOfEra(36524 * c + 1461 * q + r) == 100 * c + 4 * q + t
  {
    var doe := 36524 * c + 1461 * q + r;
    var last := if q == 24 && r == 1460 then 1 else 0;
    var u := if 24 * c + q + r >= 1460 then 1 else 0;
    DivModUnique(doe, 1460, 25 * c + q + u, 24 * c + q + r - 1460 * u);
    DivModUnique(doe, 36524, c + last, 1461 * q + r - 36524 * last);
    DivModUnique(doe, 146096, last, doe - 146096 * last);
    var yoe := 100 * c + 4 * q + t;
    DivModUnique(365 * yoe + (r - 365 * t - u), 365, yoe, r - 365 * t - u);
  }

  lemma DayOfYearByParts(c: nat, q: nat, r: nat, t: nat, yoe: nat)
    requires c < 4 && q < 25 && r <= 1460 && t == (if r < 1095 then r / 365 else 3) && yoe == 100 * c + 4 * q + t
    requires q == 24 && r == 1460 ==> c == 3
    ensures var doy := 36524 * c + 1461 * q + r - (365 * yoe + yoe / 4 - yoe / 100);
      doy == r - 365 * t && 0 <= doy <= 365 && (doy == 365 ==> IsLeap(yoe + 1))
  {
    DivModUnique(yoe, 4, 25 * c + q, t);
    DivModUnique(yoe, 100, c, 4 * q + t);
    if t == 3 && q == 24 {
      DivModUnique(yoe + 1, 100, c + 1, 0);
    } else if t == 3 {
      DivModUnique(yoe + 1, 100, c, 4 * q + 4);
    }
  }

  /** Every day of the era has a century, a four-year cycle and a day of the cycle. */
  lemma PartsOfEra(doe: nat) returns (c: nat, q: nat, r: nat)
    requires doe < 146097
    ensures c < 4 && q < 25 && r <= 1460 && (q == 24 && r == 1460 ==> c == 3) && doe == 36524 * c + 1461 * q + r
  {
    c := if doe == 146096 then 3 else doe / 36524;
    var left := doe - 36524 * c;
    q, r := left / 1461, left % 1461;
  }

  /** The year-of-era formula inverts the leap-year count inside one era of 400 years. */
  lemma YearOfEraInverts(doe: nat)
    requires doe < 146097
    ensures var yoe := YearOfEra(doe);
      var doy := doe - (365 * yoe + yoe / 4 - yoe / 100);
      0 <= yoe < 400 && 0 <= doy <= 365 && (doy == 365 ==> IsLeap(yoe + 1))
  {
    var c, q, r := PartsOfEra(doe);
    var t := if r < 1095 then r / 365 else 3;
    YearOfEraByParts(c, q, r, t);
    DayOfYearByParts(c, q, r, t, 100 * c + 4 * q + t);
  }

  /** Month and day of a March-based day of year; months are numbered from March. */
  lemma MonthFromDay(doy: int)
    requires 0 <= doy <= 365
    ensures var mp := (5 * doy + 2) / 153;
      var d := doy - (153 * mp + 2) / 5 + 1;
      && 0 <= mp <= 11 && (mp >= 10 <==> doy >= 306)
      && (mp < 10 ==> 1 <= d <= DaysInMonth(1, mp + 2) && CUMULATIVE_DAYS[mp + 2] + d - 1 == doy + 59)
      && (mp == 10 ==> 1 <= d <= 31 && d - 1 == doy - 306)
      && (mp == 11 ==> 1 <= d <= 29 && (d == 29 ==> doy == 365) && 31 + d - 1 == doy - 306)
  {
  }

  lemma LeapsInEra(yoe: int, era: int)
    requires 0 <= yoe < 400
    ensures LeapsThrough(yoe + era * 400) == yoe / 4 - yoe / 100 + 97 * era
    ensures IsLeap(yoe + era * 400) == IsLeap(yoe)
    ensures IsLeap(yoe + era * 400 + 1) == IsLeap(yoe + 1)
  {
    DivModUnique(yoe + era * 400, 4, yoe / 4 + 100 * era, yoe % 4);
    DivModUnique(yoe + era * 400, 100, yoe / 100 + 4 * era, yoe % 100);
    DivModUnique(yoe + era * 400, 400, era, yoe);
    var z := yoe + 1;
    DivModUnique(z + era * 400, 4, z / 4 + 100 * era, z % 4);
    DivModUnique(z + era * 400, 100, z / 100 + 4 * era, z % 100);
    DivModUnique(z + era * 400, 400, z / 400 + era, z % 400);
  }

  /** Day number of 1 March of year `y`. */
  function FirstOfMarch(y: int): int { DaysToYear(y) + 59 + if IsLeap(y) then 1 else 0 }

  lemma MarchToJanuary(y: int)
    ensures DaysToYear(y + 1) == FirstOfMarch(y) + 306
  {
    DaysToYearIsTheCalendar(y);
  }

  lemma FirstOfMarchInEra(yoe: int, era: int)
    requires 0 <= yoe < 400
    ensures FirstOfMarch(yoe + era * 400) == era * 146097 + 365 * yoe + yoe / 4 - yoe / 100 - 719468
  {
    LeapsInEra(yoe, era);
    LeapsThroughCounts(yoe + era * 400);
  }

  lemma DateOfDayIsRight(y: int, doy: int)
    requires 0 <= doy <= 365 && (doy == 365 ==> IsLeap(y + 1))
    ensures ValidDate(DateOfDay(y, doy)) && DayNumber(DateOfDay(y, doy)) == FirstOfMarch(y) + doy
  {
    MonthFromDay(doy);
    MarchToJanuary(y);
  }

  lemma MarchYearInEra(era: int, doe: nat)
    requires doe < 146097
    ensures 0 <= DayOfYear(doe) <= 365
    ensures DayOfYear(doe) == 365 ==> IsLeap(YearOfEra(doe) + era * 400 + 1)
    ensures FirstOfMarch(YearOfEra(doe) + era * 400) + DayOfYear(doe) == era * 146097 + doe - 719468
  {
    YearOfEraInverts(doe);
    FirstOfMarchInEra(YearOfEra(doe), era);
    LeapsInEra(YearOfEra(doe), era);
  }

  /** The year from March on and the day in it that a day number falls into. */
  lemma CivilParts(days: int) returns (y: int, doy: int)
    ensures CivilFromDays(days) == DateOfDay(y, doy) && FirstOfMarch(y) + doy == days
    ensures 0 <= doy <= 365 && (doy == 365 ==> IsLeap(y + 1))
  {
    var era := Era(days + 719468);
    var doe := days + 719468 - era * 146097;
    y, doy := YearOfEra(doe) + era * 400, DayOfYear(doe);
    MarchYearInEra(era, doe);
  }

  /** `civil_from_days` yields a valid date whose day number is the one it was given, for every day. */
  lemma CivilFromDaysIsRight(days: int)
    ensures ValidDate(CivilFromDays(days))
    ensures DayNumber(CivilFromDays(days)) == days
  {
    var y, doy := CivilParts(days);
    DateOfDayIsRight(y, doy);
  }

  // ---------------------------------------------------------------- uniqueness

  lemma {:induction false} YearsAreApart(y: int, w: int)
    requires y < w
    ensures DaysToYear(y) + 365 <= DaysToYear(w)
    ensures DaysToYear(y) + (if IsLeap(y) then 366 else 365) <= DaysToYear(w)
    decreases w - y
  {
    DaysToYearIsTheCalendar(y);
    if y + 1 < w {
      YearsAreApart(y + 1, w);
    }
  }

  lemma DayOfYearBounds(d: Date)
    requires ValidDate(d)
    ensures 0 <= DaysFrom1Jan(d.year, d.month, d.mday) < if IsLeap(d.year) then 366 else 365
  {
  }

  lemma {:induction false} MonthsAreApart(year: int, m: int, n: int)
    requires 0 <= m < n < 12
    ensures DaysBeforeMonth(year, m) + DaysInMonth(year, m) <= DaysBeforeMonth(year, n)
    decreases n - m
  {
  }

  /** Valid dates with the same day number are the same date. */
  lemma DayNumberIsInjective(a: Date, b: Date)
    requires ValidDate(a) && ValidDate(b) && DayNumber(a) == DayNumber(b)
    ensures a == b
  {
    DayOfYearBounds(a);
    DayOfYearBounds(b);
    if a.year < b.year {
      YearsAreApart(a.year, b.year);
    } else if b.year < a.year {
      YearsAreApart(b.year, a.year);
    } else if a.month < b.month {
      MonthsAreApart(a.year, a.month, b.month);
    } else if b.month < a.month {
      MonthsAreApart(a.year, b.month, a.month);
    }
  }

  // ---------------------------------------------------------------- truncation

  /** C truncation agrees with the leap-year count from year 1 on, and before it only after a leap year. */
  lemma DaysFrom0IsCountIff(year: int)
    ensures DaysFrom0(year) - DaysFrom0(1970) == DaysToYear(year) <==> year >= 1 || IsLeap(year - 1)
  {
    DaysFrom0Differs(year);
    CorrectionsCancelIff(year - 1);
  }

  /** What C truncation adds to the floor. */
  function Correction(n: int, k: int): int
    requires k > 1
  {
    if n < 0 && n % k != 0 then 1 else 0
  }

  lemma DaysFrom0Differs(year: int)
    ensures var n := year - 1;
      DaysFrom0(year) - DaysFrom0(1970) - DaysToYear(year) == Correction(n, 400) - Correction(n, 100) + Correction(n, 4)
  {
    var n := year - 1;
    TruncVersusFloor(n, 4);
    TruncVersusFloor(n, 100);
    TruncVersusFloor(n, 400);
    assert DaysFrom0(1970) == 719162;
  }

  lemma MultiplesNest(n: int)
    ensures (n % 400 == 0 ==> n % 100 == 0) && (n % 100 == 0 ==> n % 4 == 0)
  {
  }

  lemma CorrectionsCancelIff(n: int)
    ensures Correction(n, 400) - Correction(n, 100) + Correction(n, 4) == 0 <==> n >= 0 || IsLeap(n)
  {
    MultiplesNest(n);
  }

  lemma TruncVersusFloor(n: int, k: int)
    requires k > 1
    ensures TruncDiv(n, k) == n / k + Correction(n, k)
  {
    if n < 0 {
      TruncOfNegative(n, k, n / k, n % k);
    }
  }

  lemma TruncOfNegative(n: int, k: int, q: int, r: int)
    requires k > 1 && n < 0 && n == q * k + r && 0 <= r < k
    ensures TruncDiv(n, k) == if r == 0 then q else q + 1
  {
    if r == 0 {
      MulNegates(q, k);
      DivModUnique(-n, k, -q, 0);
    } else {
      MulNegates(q + 1, k);
      MulDistributes(q, 1, k);
      DivModUnique(-n, k, -q - 1, k - r);
    }
  }

  lemma MulNegates(q: int, k: int)
    ensures (-q) * k == -(q * k)
  {
  }

  // ---------------------------------------------------------------- round trips

  lemma GmTimeDays(t: int)
    ensures var q := TruncDiv(t, 86400);
      var r := t - 86400 * q;
      (if r < 0 then q - 1 else q) == t / 86400 && (if r < 0 then 86400 + r else r) == t % 86400
  {
  }

  lemma SecondsOfDay(hms: int)
    requires 0 <= hms < 86400
    ensures 0 <= hms / 3600 < 24 && 0 <= hms % 3600 / 60 < 60 && 0 <= hms % 3600 % 60 < 60
    ensures (hms / 3600 * 60 + hms % 3600 / 60) * 60 + hms % 3600 % 60 == hms
  {
  }

  lemma GmTimeByParts(t: int)
    ensures var d, hms := CivilFromDays(t / 86400), t % 86400;
      GmTime(t) == Tm(d.year, d.month, d.mday, hms / 3600, hms % 3600 / 60, hms % 3600 % 60)
  {
    GmTimeDays(t);
  }

  /** Every second, before or after 1970, breaks down into fields in their calendar ranges. */
  lemma GmTimeIsValid(t: int)
    ensures ValidTm(GmTime(t))
    ensures DayNumber(Date(GmTime(t).year, GmTime(t).month, GmTime(t).mday)) == t / 86400
    ensures (GmTime(t).hour * 60 + GmTime(t).min) * 60 + GmTime(t).sec == t % 86400
  {
    GmTimeByParts(t);
    CivilFromDaysIsRight(t / 86400);
    SecondsOfDay(t % 86400);
  }

  lemma TimeGmOfParts(tm: Tm, t: int)
    requires ValidTm(tm) && DayNumber(Date(tm.year, tm.month, tm.mday)) == t / 86400
    requires (tm.hour * 60 + tm.min) * 60 + tm.sec == t % 86400
    ensures TimeGm(tm) == t <==> tm.year >= 1 || IsLeap(tm.year - 1)
  {
    DaysFrom0IsCountIff(tm.year);
  }

  /** `timegm(gmtime(t)) == t` for every second of year 1 and later; before that, only in years after a leap year. */
  lemma TimeGmInvertsGmTimeIff(t: int)
    ensures var tm := GmTime(t); ValidTm(tm) && (TimeGm(tm) == t <==> tm.year >= 1 || IsLeap(tm.year - 1))
  {
    GmTimeIsValid(t);
    TimeGmOfParts(GmTime(t), t);
  }

  lemma TimeOfValid(tm: Tm)
    requires ValidTm(tm)
    ensures var days := DaysFrom0(tm.year) - DaysFrom0(1970) + DaysFrom1Jan(tm.year, tm.month, tm.mday);
      TimeGm(tm) / 86400 == days && TimeGm(tm) % 86400 == (tm.hour * 60 + tm.min) * 60 + tm.sec
  {
  }

  lemma HmsOfFields(h: int, m: int, s: int)
    requires 0 <= h < 24 && 0 <= m < 60 && 0 <= s < 60
    ensures var hms := (h * 60 + m) * 60 + s;
      hms / 3600 == h && hms % 3600 / 60 == m && hms % 3600 % 60 == s
  {
  }

  /** The day that `timegm` counts for a date. */
  function CodeDay(d: Date): int
    requires 0 <= d.month < 12
  {
    DaysFrom0(d.year) - DaysFrom0(1970) + DaysFrom1Jan(d.year, d.month, d.mday)
  }

  lemma CodeDayIsDayNumberIff(d: Date)
    requires ValidDate(d)
    ensures CodeDay(d) == DayNumber(d) <==> d.year >= 1 || IsLeap(d.year - 1)
    ensures CivilFromDays(CodeDay(d)) == d <==> CodeDay(d) == DayNumber(d)
  {
    DaysFrom0IsCountIff(d.year);
    CivilFromDaysIsRight(CodeDay(d));
    if CodeDay(d) == DayNumber(d) {
      DayNumberIsInjective(d, CivilFromDays(CodeDay(d)));
    }
  }

  /** The second of a day and time of day breaks down into them again. */
  lemma GmTimeOfParts(t: int, day: int, hour: int, min: int, sec: int)
    requires t / 86400 == day && t % 86400 == (hour * 60 + min) * 60 + sec
    requires 0 <= hour < 24 && 0 <= min < 60 && 0 <= sec < 60
    ensures var d := CivilFromDays(day); GmTime(t) == Tm(d.year, d.month, d.mday, hour, min, sec)
  {
    GmTimeByParts(t);
    HmsOfFields(hour, min, sec);
  }

  lemma DateComesBack(back: Tm, tm: Tm)
    requires ValidTm(tm)
    requires var d := CivilFromDays(CodeDay(Date(tm.year, tm.month, tm.mday)));
      back == Tm(d.year, d.month, d.mday, tm.hour, tm.min, tm.sec)
    ensures back == tm <==> tm.year >= 1 || IsLeap(tm.year - 1)
  {
    CodeDayIsDayNumberIff(Date(tm.year, tm.month, tm.mday));
  }

  /** The other direction: every valid broken-down time comes back, under the same condition. */
  lemma GmTimeInvertsTimeGmIff(tm: Tm)
    requires ValidTm(tm)
    ensures GmTime(TimeGm(tm)) == tm <==> tm.year >= 1 || IsLeap(tm.year - 1)
  {
    TimeOfValid(tm);
    GmTimeOfParts(TimeGm(tm), CodeDay(Date(tm.year, tm.month, tm.mday)), tm.hour, tm.min, tm.sec);
    DateComesBack(GmTime(TimeGm(tm)), tm);
  }

  lemma SecondOfYearZero()
    ensures DayNumber(Date(0, 0, 2)) == CodeDay(Date(0, 0, 1)) && ValidDate(Date(0, 0, 2))
  {
  }

  /** A date before year 1 that does not survive: 1 January of year 0 comes back as 2 January. */
  lemma YearZeroIsOffByOne()
    ensures CivilFromDays(CodeDay(Date(0, 0, 1))) == Date(0, 0, 2)
  {
    SecondOfYearZero();
    CivilFromDaysIsRight(CodeDay(Date(0, 0, 1)));
    DayNumberIsInjective(Date(0, 0, 2), CivilFromDays(CodeDay(Date(0, 0, 1))));
  }

  /** In the years 1 to 5,000,000 no 32-bit day count of the code overflows. */
  lemma DayCountsFitInt32(year: int)
    requires 1 <= year <= 5_000_000
    ensures 0 <= 365 * (year - 1) && -TWO_31 <= DaysFrom0(year) < TWO_31
    ensures -TWO_31 <= DaysFrom0(year) - DaysFrom0(1970) < TWO_31
  {
  }
}
