/**
 Calendar dates as Julian days: the two conversions, validity, leap years, day of week and day of
 year. Dates are proleptic Gregorian and there is no year 0: year -1 is followed by year 1.
 Values are unbounded integers; the `Fits` predicates say that no intermediate result of the 32-bit
 signed arithmetic leaves the type.
 */
module DateTime {
  import opened Quotients

  const MIN_INT32: int := -0x8000_0000
  const MAX_INT32: int := 0x7FFF_FFFF
  const DATE_JD_INVALID: int := MIN_INT32

  predicate Int32(x: int)
  {
    MIN_INT32 <= x <= MAX_INT32
  }

  // ---------------------------------------------------------------- division

  /** The `/` of C++, which truncates towards zero. */
  function TruncDiv(a: int, b: int): int
    requires b != 0
  {
    if a >= 0 then (if b > 0 then a / b else -(a / -b))
    else if b > 0 then -(-a / b)
    else -a / -b
  }

  /** The `%` of C++, which takes the sign of the dividend. */
  function TruncMod(a: int, b: int): int
    requires b > 0
  {
    if a >= 0 then a % b else -(-a % b)
  }

  function FloorDiv(a: int, b: int): int
    requires b != 0
  {
    if b < 0 then
      if a < 0 then TruncDiv(a, b)
      else TruncDiv(-a - (if -a < 0 then -b - 1 else 0), -b)
    else
      TruncDiv(a - (if a < 0 then b - 1 else 0), b)
  }

  predicate FloorDivFits(a: int, b: int)
    requires b != 0
  {
    && Int32(a)
    && (if b < 0 then
          (a >= 0 && -b <= MAX_INT32 && Int32(-a - (if -a < 0 then -b - 1 else 0)))
          || (a < 0 && !(a == MIN_INT32 && b == -1))
        else
          Int32(a - (if a < 0 then b - 1 else 0)))
  }

  lemma FloorDivFitsPositive(a: int, b: int)
    requires b > 0
    ensures FloorDivFits(a, b) <==> Int32(a) && (a < 0 ==> Int32(a - (b - 1)))
  {
  }

  lemma FloorDivPositive(a: int, b: int)
    requires b > 0
    ensures FloorDiv(a, b) == a / b
    ensures a / b * b <= a < (a / b + 1) * b
  {
    var q := a / b;
    assert q * b <= a < (q + 1) * b;
    if a < 0 {
      var n := b - 1 - a;
      assert -q * b == -(q * b) && (-q + 1) * b == -(q * b) + b && (q + 1) * b == q * b + b;
      QuotientUnique(n, b, -q);
      assert TruncDiv(a - (b - 1), b) == -(n / b);
    }
  }

  /** FloorDiv rounds the quotient down, whatever the signs: it is the q with q <= a/b < q + 1. */
  lemma FloorDivIsFloor(a: int, b: int)
    requires b != 0
    ensures b > 0 ==> FloorDiv(a, b) * b <= a < (FloorDiv(a, b) + 1) * b
    ensures b < 0 ==> FloorDiv(a, b) * b >= a > (FloorDiv(a, b) + 1) * b
  {
    hide FloorDiv;
    if b > 0 {
      FloorDivPositive(a, b);
    } else {
      FloorDivFlips(a, b);
      FloorDivPositive(-a, -b);
      NegateBounds(FloorDiv(-a, -b), a, b);
    }
  }

  lemma NegateBounds(q: int, a: int, b: int)
    requires q * -b <= -a < (q + 1) * -b
    ensures q * b >= a > (q + 1) * b
  {
    assert q * -b == -(q * b);
    assert (q + 1) * -b == -((q + 1) * b);
  }

  lemma FloorDivFlips(a: int, b: int)
    requires b != 0
    ensures FloorDiv(a, b) == FloorDiv(-a, -b)
  {
  }

  /** Divisibility does not depend on how a remainder is rounded. */
  lemma TruncModZero(a: int, b: int)
    requires b > 0
    ensures TruncMod(a, b) == 0 <==> a % b == 0
  {
    if a < 0 {
      NegatedMultiple(a, b);
      NegatedMultiple(-a, b);
    }
  }

  lemma NegatedMultiple(a: int, b: int)
    requires b > 0
    ensures a % b == 0 ==> -a % b == 0
  {
    if a % b == 0 {
      var q := a / b;
      assert a == q * b;
      assert -q * b == -(q * b) && (-q + 1) * b == -(q * b) + b;
      QuotientUnique(-a, b, -q);
    }
  }

  // ---------------------------------------------------------------- the conversions

  datatype Ymd = Ymd(year: int, month: int, day: int)

  /** YmdToJd for the year, month and day of a date. */
  function YmdToJd(date: Ymd): (jd: int)
  {
    var year := if date.year < 0 then date.year + 1 else date.year;
    var a := FloorDiv(14 - date.month, 12);
    var y := year + 4800 - a;
    var m := date.month + 12 * a - 3;
    date.day + FloorDiv(153 * m + 2, 5) + 365 * y + FloorDiv(y, 4) - FloorDiv(y, 100) + FloorDiv(y, 400) - 32045
  }

  /** No intermediate result of YmdToJd leaves int32. */
  predicate YmdToJdFits(date: Ymd)
  {
    var year := if date.year < 0 then date.year + 1 else date.year;
    var a := FloorDiv(14 - date.month, 12);
    var y := year + 4800 - a;
    var m := date.month + 12 * a - 3;
    && Int32(date.year) && Int32(date.month) && Int32(date.day)
    && Int32(14 - date.month) && FloorDivFits(14 - date.month, 12)
    && Int32(year + 4800) && Int32(y) && Int32(12 * a) && Int32(date.month + 12 * a) && Int32(m)
    && Int32(153 * m) && FloorDivFits(153 * m + 2, 5)
    && Int32(365 * y) && FloorDivFits(y, 4) && FloorDivFits(y, 100) && FloorDivFits(y, 400)
    && SumsFit(date.day + FloorDiv(153 * m + 2, 5), 365 * y, FloorDiv(y, 4), FloorDiv(y, 100), FloorDiv(y, 400))
  }

  /** The partial sums of YmdToJd, from left to right. */
  predicate SumsFit(day: int, days: int, fourths: int, hundredths: int, fourHundredths: int)
  {
    && Int32(day)
    && Int32(day + days)
    && Int32(day + days + fourths)
    && Int32(day + days + fourths - hundredths)
    && Int32(day + days + fourths - hundredths + fourHundredths)
    && Int32(day + days + fourths - hundredths + fourHundredths - 32045)
  }

  function JdToYmd(jd: int): (date: Ymd)
  {
    var a := jd + 32044;
    var b := FloorDiv(4 * a + 3, 146097);
    var c := a - FloorDiv(146097 * b, 4);
    var d := FloorDiv(4 * c + 3, 1461);
    var e := c - FloorDiv(1461 * d, 4);
    var m := FloorDiv(5 * e + 2, 153);
    var day := e - FloorDiv(153 * m + 2, 5) + 1;
    var month := m + 3 - 12 * FloorDiv(m, 10);
    var year := 100 * b + d - 4800 + FloorDiv(m, 10);
    Ymd(if year <= 0 then year - 1 else year, month, day)
  }

  predicate JdToYmdFits(jd: int)
  {
    var a := jd + 32044;
    var b := FloorDiv(4 * a + 3, 146097);
    var c := a - FloorDiv(146097 * b, 4);
    var d := FloorDiv(4 * c + 3, 1461);
    var e := c - FloorDiv(1461 * d, 4);
    var m := FloorDiv(5 * e + 2, 153);
    var year := 100 * b + d - 4800 + FloorDiv(m, 10);
    && Int32(jd) && Int32(a)
    && Int32(4 * a) && FloorDivFits(4 * a + 3, 146097)
    && FloorDivFits(146097 * b, 4) && Int32(c)
    && Int32(4 * c) && FloorDivFits(4 * c + 3, 1461)
    && FloorDivFits(1461 * d, 4) && Int32(e)
    && Int32(5 * e) && FloorDivFits(5 * e + 2, 153)
    && Int32(153 * m) && FloorDivFits(153 * m + 2, 5) && FloorDivFits(m, 10)
    && Int32(e - FloorDiv(153 * m + 2, 5)) && Int32(e - FloorDiv(153 * m + 2, 5) + 1)
    && Int32(m + 3) && Int32(12 * FloorDiv(m, 10)) && Int32(m + 3 - 12 * FloorDiv(m, 10))
    && Int32(100 * b) && Int32(100 * b + d) && Int32(100 * b + d - 4800) && Int32(year) && Int32(year - 1)
  }

  // ---------------------------------------------------------------- the calendar

  function DaysInMonth(month: int): (days: int)
  {
    if month == 4 || month == 6 || month == 9 || month == 11 then 30
    else if month == 2 then 28
    else if 1 <= month <= 12 then 31
    else 0
  }

  predicate IsLeapYear(year: int)
  {
    var y := if year < 1 then year + 1 else year;
    (TruncMod(y, 4) == 0 && TruncMod(y, 100) != 0) || TruncMod(y, 400) == 0
  }

  predicate IsValid(date: Ymd)
  {
    && date.year != 0
    && date.day >= 1
    && (date.day <= DaysInMonth(date.month) || (date.day == 29 && date.month == 2 && IsLeapYear(date.year)))
  }

  function DaysInYear(year: int): int
  {
    if IsLeapYear(year) then 366 else 365
  }

  /** The length of a month of a given year. */
  function MonthLength(year: int, month: int): int
  {
    if month == 2 && IsLeapYear(year) then 29 else DaysInMonth(month)
  }

  /** The years of a calendar without year 0, numbered consecutively. */
  function YearNumber(year: int): int
  {
    if year < 0 then year + 1 else year
  }

  /** Calendar order. */
  predicate Before(p: Ymd, q: Ymd)
  {
    || p.year < q.year
    || (p.year == q.year && p.month < q.month)
    || (p.year == q.year && p.month == q.month && p.day < q.day)
  }

  /** The day after a date, by the calendar alone. */
  function NextDay(date: Ymd): Ymd
  {
    if date.day < MonthLength(date.year, date.month) then date.(day := date.day + 1)
    else if date.month < 12 then Ymd(date.year, date.month + 1, 1)
    else Ymd(if date.year == -1 then 1 else date.year + 1, 1, 1)
  }

  /** Days of the year before the first of a month. */
  function DaysBeforeMonth(year: int, month: nat): int
  {
    if month <= 1 then 0 else DaysBeforeMonth(year, month - 1) + MonthLength(year, month - 1)
  }

  // ---------------------------------------------------------------- years that begin in March

  /** A date counted in years from March: the conversions' own coordinates y and m. */
  function MarchYear(date: Ymd): int
  {
    YearNumber(date.year) + 4800 - (if date.month <= 2 then 1 else 0)
  }

  function MarchMonth(date: Ymd): int
  {
    if date.month <= 2 then date.month + 9 else date.month - 3
  }

  /** Days before a March year. */
  function YearStart(y: int): int
  {
    365 * y + y / 4 - y / 100 + y / 400
  }

  /** Days of a March year before one of its months. */
  function MonthStart(m: int): int
  {
    (153 * m + 2) / 5
  }

  predicate LeapNumber(y: int)
  {
    (y % 4 == 0 && y % 100 != 0) || y % 400 == 0
  }

  lemma LeapYearNumber(year: int)
    ensures year != 0 ==> IsLeapYear(year) == LeapNumber(YearNumber(year))
    ensures LeapNumber(YearNumber(year)) == LeapNumber(YearNumber(year) + 4800)
  {
    hide TruncMod;
    var y := YearNumber(year);
    TruncModZero(y, 4);
    TruncModZero(y, 100);
    TruncModZero(y, 400);
    assert (y + 4800) % 4 == y % 4;
    Period(y, 48, 100);
    Period(y, 12, 400);
  }

  lemma YmdToJdInMarchYears(date: Ymd)
    requires 1 <= date.month <= 12
    ensures YmdToJd(date) == YearStart(MarchYear(date)) + MonthStart(MarchMonth(date)) + date.day - 32045
    ensures 0 <= MarchMonth(date) <= 11
  {
    hide FloorDiv;
    var y, m := MarchYear(date), MarchMonth(date);
    FloorDivPositive(14 - date.month, 12);
    FloorDivPositive(153 * m + 2, 5);
    FloorDivPositive(y, 4);
    FloorDivPositive(y, 100);
    FloorDivPositive(y, 400);
  }

  /** A March year ends with the February of the next year, and is as long as that makes it. */
  lemma YearStartNext(y: int)
    ensures YearStart(y + 1) == YearStart(y) + (if LeapNumber(y + 1) then 366 else 365)
  {
    QuotientStep(y, 4);
    QuotientStep(y, 100);
    QuotientStep(y, 400);
    Divisors(y + 1);
  }

  lemma Divisors(y: int)
    ensures y % 400 == 0 ==> y % 100 == 0
    ensures y % 100 == 0 ==> y % 4 == 0
  {
  }

  lemma YearStartMonotone(y: int, z: int)
    requires y <= z
    ensures YearStart(y) <= YearStart(z)
    decreases z - y
  {
    if y < z {
      YearStartNext(y);
      YearStartMonotone(y + 1, z);
    }
  }

  /** The months of a March year follow each other without gap or overlap. */
  lemma MonthStarts(date: Ymd)
    requires IsValid(date)
    ensures 1 <= date.month <= 12
    ensures MarchMonth(date) < 11 ==> MonthStart(MarchMonth(date)) + date.day <= MonthStart(MarchMonth(date) + 1)
    ensures MarchMonth(date) == 11 ==>
      MonthStart(11) + date.day <= if LeapNumber(MarchYear(date) + 1) then 366 else 365
  {
    LeapYearNumber(date.year);
    assert date.month == 2 ==> MarchYear(date) + 1 == YearNumber(date.year) + 4800;
  }

  lemma MonthStartMonotone(m: int, n: int)
    requires 0 <= m < n <= 11
    ensures MonthStart(m + 1) <= MonthStart(n)
  {
  }

  // ---------------------------------------------------------------- order and succession

  /** Earlier dates have smaller Julian days. */
  lemma JulianDayIsMonotone(p: Ymd, q: Ymd)
    requires IsValid(p) && IsValid(q) && Before(p, q)
    ensures YmdToJd(p) < YmdToJd(q)
  {
    hide YmdToJd, YearStart, MonthStart, IsLeapYear, LeapNumber;
    MonthStarts(p);
    MonthStarts(q);
    YmdToJdInMarchYears(p);
    YmdToJdInMarchYears(q);
    var y, z, m, n := MarchYear(p), MarchYear(q), MarchMonth(p), MarchMonth(q);
    FirstMonth();
    assert MonthStart(n) >= 0 by { hide *; MonthStartBounds(n); }
    assert MonthStart(m) + p.day <= 366 by { YearBound(p); }
    if y < z {
      YearStartNext(y);
      YearStartMonotone(y + 1, z);
      EndOfYear(p);
    } else {
      assert y == z;
      if m < n {
        MonthStartMonotone(m, n);
      }
    }
  }

  lemma FirstMonth()
    ensures MonthStart(0) == 0
  {
  }

  lemma MonthStartBounds(m: int)
    requires 0 <= m <= 11
    ensures 0 <= MonthStart(m) <= MonthStart(11) == 337
  {
  }

  lemma EndOfYear(date: Ymd)
    requires IsValid(date)
    ensures MonthStart(MarchMonth(date)) + date.day <=
            YearStart(MarchYear(date) + 1) - YearStart(MarchYear(date))
  {
    hide YearStart, IsLeapYear, LeapNumber;
    MonthStarts(date);
    YearStartNext(MarchYear(date));
  }

  lemma YearBound(date: Ymd)
    requires IsValid(date)
    ensures MonthStart(MarchMonth(date)) + date.day <= 366
  {
    hide YearStart, IsLeapYear, LeapNumber;
    MonthStarts(date);
  }

  /** Julian-day order is calendar order, and a Julian day stands for one date only. */
  lemma JulianDayOrder(p: Ymd, q: Ymd)
    requires IsValid(p) && IsValid(q)
    ensures YmdToJd(p) < YmdToJd(q) <==> Before(p, q)
    ensures YmdToJd(p) == YmdToJd(q) <==> p == q
  {
    hide YmdToJd, IsValid;
    if Before(p, q) {
      JulianDayIsMonotone(p, q);
    } else if Before(q, p) {
      JulianDayIsMonotone(q, p);
    }
  }

  /** Consecutive calendar days have consecutive Julian days; with the day of one date, this fixes them all. */
  lemma JulianDayCounts(date: Ymd)
    requires IsValid(date)
    ensures IsValid(NextDay(date)) && YmdToJd(NextDay(date)) == YmdToJd(date) + 1
    ensures YmdToJd(Ymd(2000, 1, 1)) == 2451545
  {
    hide YmdToJd, YearStart, MonthStart, LeapNumber, IsLeapYear;
    var next := NextDay(date);
    MonthStarts(date);
    YmdToJdInMarchYears(date);
    YmdToJdInMarchYears(next);
    YmdToJdInMarchYears(Ymd(2000, 1, 1));
    assert YearStart(6799) + MonthStart(10) + 1 - 32045 == 2451545 by { Millennium(); }
    LeapYearNumber(date.year);
    if date.day >= MonthLength(date.year, date.month) {
      MonthTurns(date);
    }
  }

  lemma Millennium()
    ensures YearStart(6799) + MonthStart(10) + 1 - 32045 == 2451545
  {
  }

  lemma MonthTurns(date: Ymd)
    requires IsValid(date) && date.day == MonthLength(date.year, date.month)
    ensures date.month != 2 ==>
      && MarchYear(NextDay(date)) == MarchYear(date)
      && MonthStart(MarchMonth(NextDay(date))) == MonthStart(MarchMonth(date)) + date.day
    ensures date.month == 2 ==>
      && MarchYear(NextDay(date)) == MarchYear(date) + 1
      && YearStart(MarchYear(date) + 1) + MonthStart(MarchMonth(NextDay(date))) ==
         YearStart(MarchYear(date)) + MonthStart(MarchMonth(date)) + date.day
  {
    hide YearStart, LeapNumber, IsLeapYear;
    LeapYearNumber(date.year);
    YearStartNext(MarchYear(date));
  }

  // ---------------------------------------------------------------- round trips

  /** The coordinates JdToYmd finds: century b, year d of it, day e of the year, month m. */
  lemma JdToYmdInMarchYears(jd: int) returns (b: int, d: int, e: int, m: int)
    ensures b == (4 * (jd + 32044) + 3) / 146097
    ensures 0 <= d <= 99 && 0 <= e <= 365 && 0 <= m <= 11
    ensures jd + 32044 == 36524 * b + b / 4 + 365 * d + d / 4 + e
    ensures e == 365 ==> d % 4 == 3 && (d == 99 ==> b % 4 == 3)
    ensures m == (5 * e + 2) / 153
    ensures JdToYmd(jd).day == e - MonthStart(m) + 1
    ensures JdToYmd(jd).month == if m < 10 then m + 3 else m - 9
    ensures YearNumber(JdToYmd(jd).year) == 100 * b + d - 4800 + (if m < 10 then 0 else 1)
    ensures JdToYmd(jd).year != 0
  {
    hide FloorDiv;
    var a := jd + 32044;
    FloorDivPositive(4 * a + 3, 146097);
    b := (4 * a + 3) / 146097;
    FloorDivPositive(146097 * b, 4);
    var c := a - 146097 * b / 4;
    FloorDivPositive(4 * c + 3, 1461);
    d := (4 * c + 3) / 1461;
    FloorDivPositive(1461 * d, 4);
    e := c - 1461 * d / 4;
    FloorDivPositive(5 * e + 2, 153);
    m := (5 * e + 2) / 153;
    FloorDivPositive(153 * m + 2, 5);
    FloorDivPositive(m, 10);
    Century(a, b, c);
    YearOfCentury(c, d, e);
    MonthFromMarch(e, m);
  }

  lemma MonthFromMarch(e: int, m: int)
    requires 0 <= e <= 365 && m == (5 * e + 2) / 153
    ensures 0 <= m <= 11 && m / 10 == if m < 10 then 0 else 1
  {
  }

  lemma Century(a: int, b: int, c: int)
    requires b == (4 * a + 3) / 146097 && c == a - 146097 * b / 4
    ensures 0 <= c <= 36524 && a == 36524 * b + b / 4 + c
    ensures c == 36524 ==> b % 4 == 3
  {
  }

  lemma YearOfCentury(c: int, d: int, e: int)
    requires 0 <= c <= 36524 && d == (4 * c + 3) / 1461 && e == c - 1461 * d / 4
    ensures 0 <= d <= 99 && 0 <= e <= 365 && c == 365 * d + d / 4 + e
    ensures e == 365 ==> d % 4 == 3 && (d == 99 ==> c == 36524)
  {
  }

  /** Converting a Julian day gives a date of the calendar, and converting that back gives the day. */
  lemma DayToDateToDay(jd: int)
    ensures IsValid(JdToYmd(jd)) && YmdToJd(JdToYmd(jd)) == jd
  {
    hide YmdToJd, JdToYmd, IsLeapYear;
    var b, d, e, m := JdToYmdInMarchYears(jd);
    var date := JdToYmd(jd);
    MonthOfDay(e, m);
    YmdToJdInMarchYears(date);
    assert MarchYear(date) == 100 * b + d && MarchMonth(date) == m;
    YearStartOfCentury(b, d);
    if e == 365 {
      LastDayIsLeap(b, d);
      LeapYearNumber(date.year);
    }
  }

  /** The month found holds the day. */
  lemma MonthOfDay(e: int, m: int)
    requires 0 <= e <= 365 && m == (5 * e + 2) / 153
    ensures 1 <= e - MonthStart(m) + 1
    ensures var month := if m < 10 then m + 3 else m - 9;
            e - MonthStart(m) + 1 <= DaysInMonth(month) || (e == 365 && month == 2 && e - MonthStart(m) + 1 == 29)
  {
  }

  lemma YearStartOfCentury(b: int, d: int)
    requires 0 <= d <= 99
    ensures YearStart(100 * b + d) == 36524 * b + b / 4 + 365 * d + d / 4
  {
    assert (100 * b + d) / 4 == 25 * b + d / 4;
    assert (100 * b + d) / 100 == b;
    assert (100 * b + d) / 400 == b / 4;
  }

  lemma LastDayIsLeap(b: int, d: int)
    requires 0 <= d <= 99 && d % 4 == 3 && (d == 99 ==> b % 4 == 3)
    ensures LeapNumber(100 * b + d + 1)
  {
    var y := 100 * b + d + 1;
    assert y % 4 == 0;
    if d == 99 {
      assert y % 400 == 0;
    } else {
      assert y % 100 == d + 1;
    }
  }

  /** Converting a date to its Julian day and back gives the date: years before 1 included. */
  lemma DateToDayToDate(date: Ymd)
    requires IsValid(date)
    ensures JdToYmd(YmdToJd(date)) == date
  {
    hide YmdToJd, JdToYmd, IsValid;
    DayToDateToDay(YmdToJd(date));
    JulianDayOrder(date, JdToYmd(YmdToJd(date)));
  }

  // ---------------------------------------------------------------- 32-bit arithmetic

  /** The days JdToYmd can convert within 32-bit arithmetic. */
  const FIRST_JD: int := -536866432
  const LAST_JD: int := 536838867

  lemma JdToYmdFitsExactly(jd: int)
    ensures JdToYmdFits(jd) <==> FIRST_JD <= jd <= LAST_JD
  {
    if FIRST_JD <= jd <= LAST_JD {
      JdToYmdFitsInside(jd);
    } else {
      hide FloorDiv, FloorDivFits;
      FloorDivFitsPositive(4 * (jd + 32044) + 3, 146097);
    }
  }

  /** On those days every quotient of JdToYmd stays small. */
  lemma JdToYmdBounds(jd: int)
    requires FIRST_JD <= jd <= LAST_JD
    ensures var a := jd + 32044;
      var b := FloorDiv(4 * a + 3, 146097);
      var c := a - FloorDiv(146097 * b, 4);
      var d := FloorDiv(4 * c + 3, 1461);
      var e := c - FloorDiv(1461 * d, 4);
      var m := FloorDiv(5 * e + 2, 153);
      && -14_699 <= b <= 14_699 && 0 <= c <= 36524 && 0 <= d <= 99 && 0 <= e <= 365 && 0 <= m <= 11
      && 0 <= FloorDiv(m, 10) <= 1 && 0 <= FloorDiv(153 * m + 2, 5) <= 337
  {
    hide FloorDiv;
    var a := jd + 32044;
    FloorDivPositive(4 * a + 3, 146097);
    var b := (4 * a + 3) / 146097;
    FloorDivPositive(146097 * b, 4);
    var c := a - 146097 * b / 4;
    FloorDivPositive(4 * c + 3, 1461);
    var d := (4 * c + 3) / 1461;
    FloorDivPositive(1461 * d, 4);
    var e := c - 1461 * d / 4;
    FloorDivPositive(5 * e + 2, 153);
    var m := (5 * e + 2) / 153;
    FloorDivPositive(153 * m + 2, 5);
    FloorDivPositive(m, 10);
    Century(a, b, c);
    YearOfCentury(c, d, e);
    MonthBounds(e, m);
  }

  lemma JdToYmdFitsInside(jd: int)
    requires FIRST_JD <= jd <= LAST_JD
    ensures JdToYmdFits(jd)
  {
    hide FloorDiv, FloorDivFits;
    JdToYmdBounds(jd);
    var a := jd + 32044;
    var b := FloorDiv(4 * a + 3, 146097);
    var c := a - FloorDiv(146097 * b, 4);
    var d := FloorDiv(4 * c + 3, 1461);
    var e := c - FloorDiv(1461 * d, 4);
    var m := FloorDiv(5 * e + 2, 153);
    FloorDivFitsPositive(4 * a + 3, 146097);
    FloorDivFitsPositive(146097 * b, 4);
    FloorDivFitsPositive(4 * c + 3, 1461);
    FloorDivFitsPositive(1461 * d, 4);
    FloorDivFitsPositive(5 * e + 2, 153);
    FloorDivFitsPositive(153 * m + 2, 5);
    FloorDivFitsPositive(m, 10);
  }

  lemma MonthBounds(e: int, m: int)
    requires 0 <= e <= 365 && m == (5 * e + 2) / 153
    ensures 0 <= m <= 11 && 0 <= m / 10 <= 1 && 0 <= (153 * m + 2) / 5 <= 337
  {
  }

  lemma DaysAtMost31(month: int)
    ensures DaysInMonth(month) <= 31
  {
  }

  /** The dates YmdToJd can convert within 32-bit arithmetic. */
  const FIRST_DATE: Ymd := Ymd(-5884291, 5, 14)
  const LAST_DATE: Ymd := Ymd(5874689, 12, 15)

  /** The dates that make the round trip within 32-bit arithmetic. */
  const FIRST_ROUND_TRIP: Ymd := Ymd(-1474604, 7, 13)
  const LAST_ROUND_TRIP: Ymd := Ymd(1465102, 10, 18)

  /** Of the partial sums of YmdToJd the one before the centuries is the extreme one on both sides. */
  lemma SumsFitExactly(day: int, y: int)
    requires 1 <= day <= 368
    ensures Int32(365 * y) && SumsFit(day, 365 * y, y / 4, y / 100, y / 400)
            <==> Int32(day + 365 * y + y / 4)
  {
  }

  /** Reaching that sum's limits, in days of a March year. */
  lemma ExtremeDays(day: int, y: int)
    requires 1 <= day <= 368
    ensures day + 365 * y + y / 4 <= MAX_INT32 <==> y < 5879489 || (y == 5879489 && day <= 290)
    ensures day + 365 * y + y / 4 >= MIN_INT32 <==> y > -5879490 || (y == -5879490 && day >= 75)
  {
  }

  lemma MonthStartTable()
    ensures MonthStart(0) == 0 && MonthStart(1) == 31 && MonthStart(2) == 61 && MonthStart(3) == 92
    ensures MonthStart(4) == 122 && MonthStart(5) == 153 && MonthStart(6) == 184 && MonthStart(7) == 214
    ensures MonthStart(8) == 245 && MonthStart(9) == 275 && MonthStart(10) == 306 && MonthStart(11) == 337
  {
  }

  /** Those limits as dates. */
  lemma ExtremeDates(date: Ymd)
    requires 1 <= date.month <= 12 && 1 <= date.day <= 31 && date.year != 0
    ensures var day, y := MonthStart(MarchMonth(date)) + date.day, MarchYear(date);
      && 1 <= day <= 368
      && (Before(LAST_DATE, date) <==> !(y < 5879489 || (y == 5879489 && day <= 290)))
      && (Before(date, FIRST_DATE) <==> !(y > -5879490 || (y == -5879490 && day >= 75)))
  {
    MonthStartTable();
    hide MonthStart;
  }

  /** No intermediate result of YmdToJd leaves int32 exactly on the dates -5884291-05-14 to 5874689-12-15. */
  lemma YmdToJdFitsExactly(date: Ymd)
    requires IsValid(date)
    ensures YmdToJdFits(date) <==> !Before(date, FIRST_DATE) && !Before(LAST_DATE, date)
  {
    hide FloorDiv, FloorDivFits, SumsFit, YearStart, IsLeapYear, LeapNumber, DaysInMonth, MonthStart, Before;
    MonthStarts(date);
    assert date.day <= 31 by { DaysAtMost31(date.month); }
    var y, m := MarchYear(date), MarchMonth(date);
    ExtremeDates(date);
    ExtremeDays(date.day + MonthStart(m), y);
    SumsFitExactly(date.day + MonthStart(m), y);
    FitsBySums(date, y, m);
  }

  /** Everything YmdToJd computes fits when its sums do. */
  lemma FitsBySums(date: Ymd, y: int, m: int)
    requires 1 <= date.month <= 12 && 1 <= date.day <= 31
    requires y == MarchYear(date) && m == MarchMonth(date)
    ensures YmdToJdFits(date) <==>
      Int32(365 * y) && SumsFit(date.day + MonthStart(m), 365 * y, y / 4, y / 100, y / 400)
  {
    hide FloorDiv, FloorDivFits, SumsFit;
    FloorDivPositive(14 - date.month, 12);
    FloorDivPositive(153 * m + 2, 5);
    FloorDivPositive(y, 4);
    FloorDivPositive(y, 100);
    FloorDivPositive(y, 400);
    FloorDivFitsPositive(14 - date.month, 12);
    FloorDivFitsPositive(153 * m + 2, 5);
    FloorDivFitsPositive(y, 4);
    FloorDivFitsPositive(y, 100);
    FloorDivFitsPositive(y, 400);
    assert (14 - date.month) / 12 == if date.month <= 2 then 1 else 0;
    assert MarchMonth(date) == date.month + 12 * ((14 - date.month) / 12) - 3;
  }

  /** The whole round trip of a date stays in int32 exactly on the dates -1474604-07-13 to 1465102-10-18. */
  lemma DateRoundTripFits(date: Ymd)
    requires IsValid(date)
    ensures YmdToJdFits(date) && JdToYmdFits(YmdToJd(date))
            <==> !Before(date, FIRST_ROUND_TRIP) && !Before(LAST_ROUND_TRIP, date)
  {
    RoundTripLimits();
    hide YmdToJd, YmdToJdFits, JdToYmdFits, IsValid;
    JdToYmdFitsExactly(YmdToJd(date));
    YmdToJdFitsExactly(date);
    JulianDayOrder(date, FIRST_ROUND_TRIP);
    JulianDayOrder(LAST_ROUND_TRIP, date);
  }

  lemma RoundTripLimits()
    ensures IsValid(FIRST_ROUND_TRIP) && YmdToJd(FIRST_ROUND_TRIP) == FIRST_JD
    ensures IsValid(LAST_ROUND_TRIP) && YmdToJd(LAST_ROUND_TRIP) == LAST_JD
  {
    hide YmdToJd, IsLeapYear;
    YmdToJdInMarchYears(FIRST_ROUND_TRIP);
    YmdToJdInMarchYears(LAST_ROUND_TRIP);
  }

  /** The marker of an invalid date is no date's Julian day. */
  lemma MarkerIsNoDate(date: Ymd)
    requires IsValid(date) && YmdToJdFits(date)
    ensures YmdToJd(date) > DATE_JD_INVALID
  {
    FirstDate();
    hide YmdToJd, YmdToJdFits, IsValid;
    YmdToJdFitsExactly(date);
    JulianDayOrder(date, FIRST_DATE);
  }

  lemma FirstDate()
    ensures IsValid(FIRST_DATE) && YmdToJd(FIRST_DATE) == -2147471597
  {
    hide YmdToJd, IsLeapYear;
    YmdToJdInMarchYears(FIRST_DATE);
  }

  /** On those days the way back does not overflow either, so the round trip holds in int32. */
  lemma RoundTripFits(jd: int)
    requires FIRST_JD <= jd <= LAST_JD
    ensures YmdToJdFits(JdToYmd(jd))
  {
    hide FloorDiv, JdToYmd, YmdToJd, YmdToJdFits, IsValid;
    var b, d, e, m := JdToYmdInMarchYears(jd);
    assert -14_700 <= b <= 14_700;
    DayToDateToDay(jd);
    YmdToJdFitsExactly(JdToYmd(jd));
  }

  // ---------------------------------------------------------------- the Date class

  class Date {
    var jd: int

    constructor (year: int, month: int, day: int)
      requires IsValid(Ymd(year, month, day)) ==> YmdToJdFits(Ymd(year, month, day))
      ensures IsInvalid() <==> !IsValid(Ymd(year, month, day))
      ensures IsValid(Ymd(year, month, day)) ==> JdToYmd(jd) == Ymd(year, month, day)
    {
      jd := DATE_JD_INVALID;
      new;
      Set(year, month, day);
    }

    /**
     Stores a date so that converting back gives it; exactly a date the calendar does not have leaves
     the invalid marker.
     */
    method Set(year: int, month: int, day: int)
      requires IsValid(Ymd(year, month, day)) ==> YmdToJdFits(Ymd(year, month, day))
      modifies this
      ensures IsInvalid() <==> !IsValid(Ymd(year, month, day))
      ensures IsValid(Ymd(year, month, day)) ==> JdToYmd(jd) == Ymd(year, month, day)
    {
      hide IsValid, YmdToJd, JdToYmd, YmdToJdFits;
      if IsValid(Ymd(year, month, day)) {
        DateToDayToDate(Ymd(year, month, day));
        MarkerIsNoDate(Ymd(year, month, day));
        jd := YmdToJd(Ymd(year, month, day));
      } else {
        jd := DATE_JD_INVALID;
      }
    }

    predicate IsInvalid()
      reads this
    {
      jd == DATE_JD_INVALID
    }

    method Get() returns (date: Ymd)
      requires IsInvalid() || FIRST_JD <= jd <= LAST_JD
      ensures if IsInvalid() then date == Ymd(0, 0, 0) else IsValid(date) && YmdToJd(date) == jd
    {
      hide IsValid, YmdToJd, JdToYmd;
      if IsInvalid() {
        date := Ymd(0, 0, 0);
      } else {
        date := JdToYmd(jd);
        DayToDateToDay(jd);
      }
    }

    /** Monday is 1; the same seven-day cycle on both sides of day 0. */
    method DayOfWeek() returns (weekday: int)
      requires Int32(jd)
      ensures if IsInvalid() then weekday == 0 else 1 <= weekday <= 7 && (weekday - 1 - jd) % 7 == 0
    {
      hide TruncMod;
      if IsInvalid() {
        return 0;
      }
      if jd >= 0 {
        WeekdayFromZero(jd);
        return TruncMod(jd, 7) + 1;
      }
      WeekdayBeforeZero(jd);
      return TruncMod(jd + 1, 7) + 7;
    }

    /** The position of the day in its year, counting the lengths of the months before it. */
    method DayOfYear() returns (position: int)
      requires IsInvalid() || FIRST_JD <= jd <= LAST_JD
      ensures IsInvalid() ==> position == 0
      ensures !IsInvalid() ==>
        && JdToYmd(jd).month >= 1
        && position == DaysBeforeMonth(JdToYmd(jd).year, JdToYmd(jd).month) + JdToYmd(jd).day
        && 1 <= position <= DaysInYear(JdToYmd(jd).year)
    {
      hide YmdToJd, JdToYmd, IsLeapYear;
      if IsInvalid() {
        return 0;
      }
      var date := JdToYmd(jd);
      position := jd - YmdToJd(Ymd(date.year, 1, 1)) + 1;
      DayToDateToDay(jd);
      DaysSinceNewYear(date);
    }
  }

  lemma WeekdayFromZero(jd: int)
    requires jd >= 0
    ensures 0 <= TruncMod(jd, 7) <= 6 && (TruncMod(jd, 7) - jd) % 7 == 0
  {
    Period(0, -(jd / 7), 7);
    assert TruncMod(jd, 7) - jd == 0 + -(jd / 7) * 7;
  }

  /** Counting back from day -1, the seventh day of its week. */
  lemma WeekdayBeforeZero(jd: int)
    requires jd < 0
    ensures -6 <= TruncMod(jd + 1, 7) <= 0 && (TruncMod(jd + 1, 7) + 6 - jd) % 7 == 0
  {
    var n := -(jd + 1);
    Period(0, n / 7 + 1, 7);
    assert TruncMod(jd + 1, 7) == -(n % 7);
    assert -(n % 7) + 6 - jd == 0 + (n / 7 + 1) * 7;
  }

  lemma {:induction false} DaysSinceNewYear(date: Ymd)
    requires IsValid(date)
    ensures 1 <= date.month <= 12
    ensures YmdToJd(date) - YmdToJd(Ymd(date.year, 1, 1)) + 1 == DaysBeforeMonth(date.year, date.month) + date.day
    ensures 1 <= DaysBeforeMonth(date.year, date.month) + date.day <= DaysInYear(date.year)
  {
    hide YmdToJd, IsLeapYear;
    MonthsOfYear(date.year, date.month);
    YmdToJdInMarchYears(date);
    YmdToJdInMarchYears(Ymd(date.year, date.month, 1));
    YearLength(date.year);
    DaysBeforeMonthMonotone(date.year, date.month + 1, 13);
    DaysBeforeMonthMonotone(date.year, 1, date.month);
  }

  /** The months add up to the year. */
  lemma YearLength(year: int)
    ensures DaysBeforeMonth(year, 13) == DaysInYear(year)
  {
    hide IsLeapYear;
    var february := MonthLength(year, 2);
    assert DaysBeforeMonth(year, 2) == 31;
    assert DaysBeforeMonth(year, 3) == 31 + february;
    assert DaysBeforeMonth(year, 5) == 92 + february;
    assert DaysBeforeMonth(year, 7) == 153 + february;
    assert DaysBeforeMonth(year, 9) == 215 + february;
    assert DaysBeforeMonth(year, 11) == 276 + february;
  }

  lemma {:induction false} DaysBeforeMonthMonotone(year: int, month: nat, later: nat)
    requires 1 <= month <= later
    ensures 0 <= DaysBeforeMonth(year, month) <= DaysBeforeMonth(year, later)
    decreases later
  {
    hide IsLeapYear;
    if month < later {
      DaysBeforeMonthMonotone(year, month, later - 1);
    } else if month > 1 {
      DaysBeforeMonthMonotone(year, 1, later - 1);
    }
  }

  lemma {:induction false} MonthsOfYear(year: int, month: int)
    requires year != 0 && 1 <= month <= 12
    ensures YmdToJd(Ymd(year, month, 1)) - YmdToJd(Ymd(year, 1, 1)) == DaysBeforeMonth(year, month)
    decreases month
  {
    hide YmdToJd, IsLeapYear;
    if month > 1 {
      MonthsOfYear(year, month - 1);
      var last := Ymd(year, month - 1, MonthLength(year, month - 1));
      JulianDayCounts(last);
      YmdToJdInMarchYears(last);
      YmdToJdInMarchYears(Ymd(year, month - 1, 1));
    }
  }
}
