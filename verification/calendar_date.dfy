/** Calendar arithmetic on dates written as integers YYYYMMDD: which
    integers are dates, the weekday of a date, and why comparing the
    integers compares the dates. This stands for the date parsing and the
    weekday name that the script takes from its date library. */
module CalendarDate {
  import opened Gtfs

  function Year(d: Date): int { d / 10000 }
  function Month(d: Date): int { d / 100 % 100 }
  function Day(d: Date): int { d % 100 }

  /** The date with the given parts, written as YYYYMMDD. */
  function MakeDate(y: int, m: int, dd: int): Date { y * 10000 + m * 100 + dd }

  predicate IsLeapYear(y: int) { y % 4 == 0 && (y % 100 != 0 || y % 400 == 0) }

  function DaysInMonth(y: int, m: int): (n: int)
    requires 1 <= m <= 12
    ensures 28 <= n <= 31
    ensures n == 29 <==> m == 2 && IsLeapYear(y)
  {
    if m == 2 then (if IsLeapYear(y) then 29 else 28)
    else if m == 4 || m == 6 || m == 9 || m == 11 then 30
    else 31
  }

  /** `d` names a day of the proleptic Gregorian calendar in years 1 to 9999. */
  predicate ValidDate(d: Date)
  {
    && 1 <= Year(d) <= 9999
    && 1 <= Month(d) <= 12
    && 1 <= Day(d) <= DaysInMonth(Year(d), Month(d))
  }

  function YearLength(y: int): int { if IsLeapYear(y) then 366 else 365 }

  /** The number of leap years among the years 1 to y. */
  function LeapYearsThrough(y: int): int { y / 4 - y / 100 + y / 400 }

  function DaysBeforeYear(y: int): int { 365 * (y - 1) + LeapYearsThrough(y - 1) }

  function DaysBeforeMonth(y: int, m: int): int
    requires 1 <= m <= 12
  {
    [0, 31, 59, 90, 120, 151, 181, 212, 243, 273, 304, 334][m - 1]
      + (if m > 2 && IsLeapYear(y) then 1 else 0)
  }

  /** Days elapsed since 0001-01-01, which is day 0 and a Monday. */
  function DayNumber(d: Date): int
    requires ValidDate(d)
  {
    DaysBeforeYear(Year(d)) + DaysBeforeMonth(Year(d), Month(d)) + Day(d) - 1
  }

  /** The day of the week of `d`. */
  function Weekday(d: Date): DayOfWeek
    requires ValidDate(d)
  {
    DayNumber(d) % 7
  }

  /** The calendar day after `d`; the last representable date has none. */
  function NextDay(d: Date): (e: Date)
    requires ValidDate(d) && d != 99991231
  {
    var y, m, dd := Year(d), Month(d), Day(d);
    if dd < DaysInMonth(y, m) then MakeDate(y, m, dd + 1)
    else if m < 12 then MakeDate(y, m + 1, 1)
    else MakeDate(y + 1, 1, 1)
  }

  /** Writing the parts as YYYYMMDD and reading them back is the identity. */
  lemma DateParts(y: int, m: int, dd: int)
    requires 1 <= m <= 99 && 1 <= dd <= 99
    ensures Year(MakeDate(y, m, dd)) == y
    ensures Month(MakeDate(y, m, dd)) == m
    ensures Day(MakeDate(y, m, dd)) == dd
  {
    var d := MakeDate(y, m, dd);
    assert d == (y * 100 + m) * 100 + dd;
    assert d / 100 == y * 100 + m;
    assert d == y * 10000 + (m * 100 + dd);
  }

  /** Every date is the composition of its parts. */
  lemma DateFromParts(d: Date)
    requires ValidDate(d)
    ensures d == MakeDate(Year(d), Month(d), Day(d))
  {
    assert d == (d / 100) * 100 + Day(d);
    assert d / 100 == (d / 100 / 100) * 100 + Month(d);
    assert d / 100 / 100 == Year(d);
  }

  /** The leap-year count grows by one exactly at a leap year. */
  lemma LeapYearStep(y: int)
    requires y >= 1
    ensures LeapYearsThrough(y) == LeapYearsThrough(y - 1) + (if IsLeapYear(y) then 1 else 0)
  {
    var q4, q100, q400 := (y - 1) / 4, (y - 1) / 100, (y - 1) / 400;
    var r4, r100, r400 := (y - 1) % 4, (y - 1) % 100, (y - 1) % 400;
    assert y / 4 == if r4 == 3 then q4 + 1 else q4;
    assert y / 100 == if r100 == 99 then q100 + 1 else q100;
    assert y / 400 == if r400 == 399 then q400 + 1 else q400;
    assert y % 4 == 0 <==> r4 == 3;
    assert y % 100 == 0 <==> r100 == 99;
    assert y % 400 == 0 <==> r400 == 399;
    assert r400 == 399 ==> r100 == 99 by {
      assert y - 1 == q400 * 400 + r400;
      assert y - 1 == (q400 * 4 + 3) * 100 + 99 || r400 != 399;
    }
    assert r100 == 99 ==> r4 == 3 by {
      assert y - 1 == q100 * 100 + r100;
      assert y - 1 == (q100 * 25 + 24) * 4 + 3 || r100 != 99;
    }
  }

  lemma YearStep(y: int)
    requires y >= 1
    ensures DaysBeforeYear(y + 1) == DaysBeforeYear(y) + YearLength(y)
  {
    LeapYearStep(y);
  }

  /** The days before a later year cover the whole of every earlier year. */
  lemma {:induction false} YearsAccumulate(y1: int, y2: int)
    requires 1 <= y1 < y2
    ensures DaysBeforeYear(y1) + YearLength(y1) <= DaysBeforeYear(y2)
    decreases y2 - y1
  {
    YearStep(y1);
    if y1 + 1 < y2 {
      YearsAccumulate(y1 + 1, y2);
    }
  }

  /** The day after a date is a later date, numbered one more. */
  lemma NextDayNumber(d: Date)
    requires ValidDate(d) && d != 99991231
    ensures ValidDate(NextDay(d)) && d < NextDay(d)
    ensures DayNumber(NextDay(d)) == DayNumber(d) + 1
  {
    var y, m, dd := Year(d), Month(d), Day(d);
    DateFromParts(d);
    if dd < DaysInMonth(y, m) {
      assert NextDay(d) == MakeDate(y, m, dd + 1);
      StepWithinMonth(y, m, dd);
    } else if m < 12 {
      assert NextDay(d) == MakeDate(y, m + 1, 1);
      StepToNextMonth(y, m);
    } else {
      assert NextDay(d) == MakeDate(y + 1, 1, 1);
      assert y < 9999 || d == 99991231;
      StepToNextYear(y);
    }
  }

  /** Inside a month the next day is numbered one more. */
  lemma StepWithinMonth(y: int, m: int, dd: int)
    requires 1 <= y <= 9999 && 1 <= m <= 12 && 1 <= dd < DaysInMonth(y, m)
    ensures ValidDate(MakeDate(y, m, dd)) && ValidDate(MakeDate(y, m, dd + 1))
    ensures DayNumber(MakeDate(y, m, dd + 1)) == DayNumber(MakeDate(y, m, dd)) + 1
  {
    DayNumberOfParts(y, m, dd);
    DayNumberOfParts(y, m, dd + 1);
  }

  /** The first of a month follows the last day of the month before. */
  lemma StepToNextMonth(y: int, m: int)
    requires 1 <= y <= 9999 && 1 <= m < 12
    ensures ValidDate(MakeDate(y, m, DaysInMonth(y, m))) && ValidDate(MakeDate(y, m + 1, 1))
    ensures DayNumber(MakeDate(y, m + 1, 1)) == DayNumber(MakeDate(y, m, DaysInMonth(y, m))) + 1
  {
    MonthStep(y, m);
    DayNumberOfParts(y, m, DaysInMonth(y, m));
    DayNumberOfParts(y, m + 1, 1);
  }

  /** New Year's Day follows the 31st of December. */
  lemma StepToNextYear(y: int)
    requires 1 <= y < 9999
    ensures ValidDate(MakeDate(y, 12, 31)) && ValidDate(MakeDate(y + 1, 1, 1))
    ensures DayNumber(MakeDate(y + 1, 1, 1)) == DayNumber(MakeDate(y, 12, 31)) + 1
  {
    YearStep(y);
    YearEnd(y);
    DayNumberOfParts(y, 12, 31);
    DayNumberOfParts(y + 1, 1, 1);
  }

  /** A date written from valid parts is valid and numbered from its parts. */
  lemma DayNumberOfParts(y: int, m: int, dd: int)
    requires 1 <= y <= 9999 && 1 <= m <= 12 && 1 <= dd <= DaysInMonth(y, m)
    ensures ValidDate(MakeDate(y, m, dd))
    ensures DayNumber(MakeDate(y, m, dd)) == DaysBeforeYear(y) + DaysBeforeMonth(y, m) + dd - 1
  {
    DateParts(y, m, dd);
  }

  /** December ends the year. */
  lemma YearEnd(y: int)
    ensures DaysBeforeMonth(y, 12) + DaysInMonth(y, 12) == YearLength(y)
  {
  }

  /** The days before a month cover the whole of the month before it. */
  lemma MonthStep(y: int, m: int)
    requires 1 <= m < 12
    ensures DaysBeforeMonth(y, m + 1) == DaysBeforeMonth(y, m) + DaysInMonth(y, m)
  {
  }

  /** Weekdays advance by one, cyclically, from one day to the next. */
  lemma WeekdayOfNextDay(d: Date)
    requires ValidDate(d) && d != 99991231
    ensures ValidDate(NextDay(d))
    ensures Weekday(NextDay(d)) == (Weekday(d) + 1) % 7
  {
    NextDayNumber(d);
    var n := DayNumber(d);
    assert Weekday(d) == n % 7;
    assert Weekday(NextDay(d)) == (n + 1) % 7;
    WeekCycle(n);
  }

  lemma WeekCycle(n: int)
    ensures (n + 1) % 7 == (n % 7 + 1) % 7
  {
    var q, r := n / 7, n % 7;
    assert n + 1 == q * 7 + (r + 1);
    if r < 6 {
      assert (n + 1) % 7 == r + 1;
    } else {
      assert n + 1 == (q + 1) * 7;
    }
  }

  /** 2024-01-01 was a Monday: the numbering agrees with the calendar. */
  lemma WeekdayAnchor()
    ensures ValidDate(20240101) && Weekday(20240101) == 0
  {
    DateParts(2024, 1, 1);
    assert LeapYearsThrough(2023) == 490;
  }

  /** A later date, read as an integer, is a later day. */
  lemma DayNumberIncreasing(a: Date, b: Date)
    requires ValidDate(a) && ValidDate(b) && a < b
    ensures DayNumber(a) < DayNumber(b)
  {
    DateFromParts(a);
    DateFromParts(b);
    var ya, ma, da := Year(a), Month(a), Day(a);
    var yb, mb, db := Year(b), Month(b), Day(b);
    if ya < yb {
      YearsAccumulate(ya, yb);
      assert DaysBeforeMonth(ya, ma) + da <= YearLength(ya);
    } else {
      assert ya == yb;
      if ma < mb {
        assert DaysBeforeMonth(ya, ma) + DaysInMonth(ya, ma) <= DaysBeforeMonth(ya, mb);
      } else {
        assert ma == mb && da < db;
      }
    }
  }

  /** Comparing two dates as YYYYMMDD integers gives the same answer as
      comparing the days they name, which is what a date library compares. */
  lemma DateOrderIsChronological(a: Date, b: Date)
    requires ValidDate(a) && ValidDate(b)
    ensures a <= b <==> DayNumber(a) <= DayNumber(b)
  {
    if a < b {
      DayNumberIncreasing(a, b);
    } else if b < a {
      DayNumberIncreasing(b, a);
    }
  }
}
