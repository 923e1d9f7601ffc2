/**
 * Calendar dates as the JavaScript `Date` sees them, reduced to what the
 * core uses: a "YYYY-MM-DD" string read as midnight UTC, counted in
 * milliseconds since the Unix epoch, and the one-day window after it.
 */
module Dates {
  import opened Wrappers
  import opened Text

  const MsPerDay: int := 86400000

  // ---------------------------------------------------------------------
  // The proleptic Gregorian calendar

  predicate IsLeapYear(y: int) {
    y % 4 == 0 && (y % 100 != 0 || y % 400 == 0)
  }

  function YearLength(y: int): int {
    if IsLeapYear(y) then 366 else 365
  }

  function DaysInMonth(y: int, m: int): int
    requires 1 <= m <= 12
  {
    if m == 2 then (if IsLeapYear(y) then 29 else 28)
    else if m == 4 || m == 6 || m == 9 || m == 11 then 30
    else 31
  }

  /** A day that exists: a month from 1 to 12 and a day within that month. */
  predicate IsCalendarDate(y: int, m: int, d: int) {
    1 <= m <= 12 && 1 <= d <= DaysInMonth(y, m)
  }

  /** The day after a calendar date. */
  function NextDate(y: int, m: int, d: int): (n: (int, int, int))
    requires IsCalendarDate(y, m, d)
    ensures IsCalendarDate(n.0, n.1, n.2)
  {
    if d < DaysInMonth(y, m) then (y, m, d + 1)
    else if m < 12 then (y, m + 1, 1)
    else (y + 1, 1, 1)
  }

  /** `(y1, m1, d1)` comes strictly before `(y2, m2, d2)` in calendar order. */
  predicate Before(y1: int, m1: int, d1: int, y2: int, m2: int, d2: int) {
    y1 < y2 || (y1 == y2 && (m1 < m2 || (m1 == m2 && d1 < d2)))
  }

  // ---------------------------------------------------------------------
  // Day numbers

  /**
   * Days from 1970-01-01 to 1 March of year `y`. Counting years from March
   * puts the leap day at the end of the year; a 400-year era has 146097 days.
   */
  function MarchFirst(y: int): int {
    var era := y / 400;
    era * 146097 + EraDays(y - era * 400) - 719468
  }

  /** Days from 1 March of an era's first year to 1 March of its year `r`. */
  function EraDays(r: int): int {
    r * 365 + r / 4 - r / 100
  }

  /**
   * Days from 1970-01-01 to the given date (month 1..12). A day of month past
   * the end of the month counts on into the next one.
   */
  function DaysFromCivil(year: int, month: int, day: int): int
    requires 1 <= month <= 12
  {
    var y := if month <= 2 then year - 1 else year;
    var shiftedMonth := if month > 2 then month - 3 else month + 9;
    MarchFirst(y) + (153 * shiftedMonth + 2) / 5 + day - 1
  }

  /** The epoch is day 0. */
  lemma EpochIsDayZero()
    ensures DaysFromCivil(1970, 1, 1) == 0
  {
    assert MarchFirst(1969) == -306;
  }

  /** Whether a year is a leap year depends only on its place in its 400-year era. */
  lemma LeapByEraYear(y: int)
    ensures var r := y % 400; IsLeapYear(y) <==> r % 4 == 0 && (r % 100 != 0 || r == 0)
  {
    var era, r := y / 400, y % 400;
    DivModUnique(y, 4, era * 100 + r / 4, r % 4);
    DivModUnique(y, 100, era * 4 + r / 100, r % 100);
  }

  /** Inside an era, one more year adds 366 days when it is a leap year and 365 otherwise. */
  lemma EraDaysStep(r: int)
    requires 0 <= r < 399
    ensures EraDays(r + 1) == EraDays(r) + if (r + 1) % 4 == 0 && (r + 1) % 100 != 0 then 366 else 365
  {
    if r % 4 == 3 {
      DivModUnique(r + 1, 4, r / 4 + 1, 0);
    } else {
      DivModUnique(r + 1, 4, r / 4, r % 4 + 1);
    }
    if r % 100 == 99 {
      DivModUnique(r + 1, 100, r / 100 + 1, 0);
    } else {
      DivModUnique(r + 1, 100, r / 100, r % 100 + 1);
    }
  }

  /** From one 1 March to the next lies one year of the calendar, leap day included. */
  lemma MarchToMarch(y: int)
    ensures MarchFirst(y + 1) == MarchFirst(y) + YearLength(y + 1)
  {
    var era, r := y / 400, y % 400;
    LeapByEraYear(y + 1);
    if r == 399 {
      DivModUnique(y + 1, 400, era + 1, 0);
      assert EraDays(399) == 145731;
    } else {
      DivModUnique(y + 1, 400, era, r + 1);
      EraDaysStep(r);
    }
  }

  /** Days before the first of month `m` in year `y`. */
  function DaysBeforeMonth(y: int, m: int): int
    requires 1 <= m <= 12
  {
    var common :=
      if m == 1 then 0 else if m == 2 then 31 else if m == 3 then 59 else if m == 4 then 90
      else if m == 5 then 120 else if m == 6 then 151 else if m == 7 then 181 else if m == 8 then 212
      else if m == 9 then 243 else if m == 10 then 273 else if m == 11 then 304 else 334;
    if m > 2 && IsLeapYear(y) then common + 1 else common
  }

  function YearStart(y: int): int {
    DaysFromCivil(y, 1, 1)
  }

  /** A day number is the year's first day plus the days before the month plus the day. */
  lemma Decompose(y: int, m: int, d: int)
    requires 1 <= m <= 12
    ensures DaysFromCivil(y, m, d) == YearStart(y) + DaysBeforeMonth(y, m) + d - 1
  {
    MonthOffset(m);
    if m > 2 {
      MarchToMarch(y - 1);
    }
  }

  /** The March-based month offset of `DaysFromCivil` against the table of a common year. */
  lemma MonthOffset(m: int)
    requires 1 <= m <= 12
    ensures var shiftedMonth := if m > 2 then m - 3 else m + 9;
      (153 * shiftedMonth + 2) / 5 == if m > 2 then DaysBeforeMonth(1, m) - 59 else DaysBeforeMonth(1, m) + 306
  {
    if m == 1 {} else if m == 2 {} else if m == 3 {} else if m == 4 {} else if m == 5 {} else if m == 6 {}
    else if m == 7 {} else if m == 8 {} else if m == 9 {} else if m == 10 {} else if m == 11 {} else {}
  }

  lemma YearStep(y: int)
    ensures YearStart(y + 1) == YearStart(y) + YearLength(y)
  {
    MarchToMarch(y - 1);
  }

  lemma MonthStep(y: int, m: int)
    requires 1 <= m < 12
    ensures DaysBeforeMonth(y, m + 1) == DaysBeforeMonth(y, m) + DaysInMonth(y, m)
  {
  }

  lemma YearEnd(y: int)
    ensures DaysBeforeMonth(y, 12) + DaysInMonth(y, 12) == YearLength(y)
  {
  }

  /** Consecutive calendar days have consecutive day numbers. */
  lemma NextDateIsNextDay(y: int, m: int, d: int)
    requires IsCalendarDate(y, m, d)
    ensures var n := NextDate(y, m, d);
      DaysFromCivil(n.0, n.1, n.2) == DaysFromCivil(y, m, d) + 1
  {
    var n := NextDate(y, m, d);
    Decompose(y, m, d);
    Decompose(n.0, n.1, n.2);
    if d == DaysInMonth(y, m) {
      if m < 12 {
        MonthStep(y, m);
      } else {
        YearStep(y);
        YearEnd(y);
      }
    }
  }

  /** A day of month past the month's end is the same day as its overflow into the next month. */
  lemma DayOverflowRollsOver(y: int, m: int, d: int)
    requires 1 <= m < 12 && d > DaysInMonth(y, m)
    ensures DaysFromCivil(y, m, d) == DaysFromCivil(y, m + 1, d - DaysInMonth(y, m))
  {
    Decompose(y, m, d);
    Decompose(y, m + 1, d - DaysInMonth(y, m));
    MonthStep(y, m);
  }

  /** Within a year, a later month starts after every day of an earlier one. */
  lemma {:induction false} MonthsInOrder(y: int, m1: int, m2: int)
    requires 1 <= m1 < m2 <= 12
    ensures DaysBeforeMonth(y, m1) + DaysInMonth(y, m1) <= DaysBeforeMonth(y, m2)
    decreases m2 - m1
  {
    MonthStep(y, m1);
    if m1 + 1 < m2 {
      MonthsInOrder(y, m1 + 1, m2);
      assert DaysInMonth(y, m1 + 1) >= 0;
    }
  }

  /** A later year starts after every day of an earlier one. */
  lemma {:induction false} YearsInOrder(y1: int, y2: int)
    requires y1 < y2
    ensures YearStart(y1) + YearLength(y1) <= YearStart(y2)
    decreases y2 - y1
  {
    YearStep(y1);
    if y1 + 1 < y2 {
      YearsInOrder(y1 + 1, y2);
    }
  }

  /** The day number of a calendar date lies within its year. */
  lemma WithinYear(y: int, m: int, d: int)
    requires IsCalendarDate(y, m, d)
    ensures YearStart(y) <= DaysFromCivil(y, m, d) < YearStart(y) + YearLength(y)
  {
    Decompose(y, m, d);
    if m < 12 {
      MonthsInOrder(y, m, 12);
    }
    YearEnd(y);
  }

  /** Day numbers follow calendar order. */
  lemma CalendarOrder(y1: int, m1: int, d1: int, y2: int, m2: int, d2: int)
    requires IsCalendarDate(y1, m1, d1) && IsCalendarDate(y2, m2, d2)
    requires Before(y1, m1, d1, y2, m2, d2)
    ensures DaysFromCivil(y1, m1, d1) < DaysFromCivil(y2, m2, d2)
  {
    if y1 < y2 {
      WithinYear(y1, m1, d1);
      WithinYear(y2, m2, d2);
      YearsInOrder(y1, y2);
    } else {
      Decompose(y1, m1, d1);
      Decompose(y2, m2, d2);
      if m1 < m2 {
        MonthsInOrder(y1, m1, m2);
      }
    }
  }

  /** Two calendar dates with the same day number are the same date. */
  lemma DaysFromCivilInjective(y1: int, m1: int, d1: int, y2: int, m2: int, d2: int)
    requires IsCalendarDate(y1, m1, d1) && IsCalendarDate(y2, m2, d2)
    requires DaysFromCivil(y1, m1, d1) == DaysFromCivil(y2, m2, d2)
    ensures y1 == y2 && m1 == m2 && d1 == d2
  {
    if Before(y1, m1, d1, y2, m2, d2) {
      CalendarOrder(y1, m1, d1, y2, m2, d2);
    } else if Before(y2, m2, d2, y1, m1, d1) {
      CalendarOrder(y2, m2, d2, y1, m1, d1);
    }
  }

  // ---------------------------------------------------------------------
  // Date-only ISO strings

  /** `DDDD-DD-DD`: four digits, a dash, two digits, a dash, two digits. */
  predicate IsDateText(s: string) {
    |s| == 10 && AllDigits(s[..4]) && s[4] == '-' && AllDigits(s[5..7]) && s[7] == '-' && AllDigits(s[8..])
  }

  function YearOf(s: string): nat
    requires IsDateText(s)
  {
    DecimalValue(s[..4])
  }

  function MonthOf(s: string): nat
    requires IsDateText(s)
  {
    DecimalValue(s[5..7])
  }

  function DayOf(s: string): nat
    requires IsDateText(s)
  {
    DecimalValue(s[8..])
  }

  /** The three fields of a date string, digit by digit. */
  lemma DateFields(s: string)
    requires IsDateText(s)
    ensures YearOf(s) == 1000 * DigitValue(s[0]) + 100 * DigitValue(s[1]) + 10 * DigitValue(s[2]) + DigitValue(s[3])
    ensures MonthOf(s) == 10 * DigitValue(s[5]) + DigitValue(s[6])
    ensures DayOf(s) == 10 * DigitValue(s[8]) + DigitValue(s[9])
  {
    var y, m, d := s[..4], s[5..7], s[8..];
    assert DecimalValue(y[..1]) == DigitValue(s[0]) by { assert y[..1][..0] == []; }
    assert DecimalValue(y[..2]) == 10 * DigitValue(s[0]) + DigitValue(s[1]) by { assert y[..2][..1] == y[..1]; }
    assert DecimalValue(y[..3]) == 100 * DigitValue(s[0]) + 10 * DigitValue(s[1]) + DigitValue(s[2]) by {
      assert y[..3][..2] == y[..2];
    }
    assert y[..4][..3] == y[..3];
    assert DecimalValue(m[..1]) == DigitValue(s[5]) by { assert m[..1][..0] == []; }
    assert DecimalValue(d[..1]) == DigitValue(s[8]) by { assert d[..1][..0] == []; }
  }

  /**
   * `new Date(s)` for a date-only ISO string: midnight UTC of that day, in
   * milliseconds. Any other string is not a date here. A day of month up to
   * 31 is accepted for every month and rolls over into the next one.
   */
  function ParseIsoDate(s: string): (t: Option<int>)
    ensures t.Some? <==> IsDateText(s) && 1 <= MonthOf(s) <= 12 && 1 <= DayOf(s) <= 31
    ensures t.Some? ==> t.value % MsPerDay == 0
    ensures t.Some? ==> t.value == DaysFromCivil(YearOf(s), MonthOf(s), DayOf(s)) * MsPerDay
  {
    if IsDateText(s) then
      var year, month, day := YearOf(s), MonthOf(s), DayOf(s);
      if 1 <= month <= 12 && 1 <= day <= 31 then
        var days := DaysFromCivil(year, month, day);
        DivModUnique(days * MsPerDay, MsPerDay, days, 0);
        Some(days * MsPerDay)
      else None
    else None
  }

  /** A date string naming a day that exists. */
  predicate IsCanonicalDate(s: string) {
    IsDateText(s) && IsCalendarDate(YearOf(s), MonthOf(s), DayOf(s))
  }

  /** The string for the next day parses one day later. */
  lemma NextDayOneDayLater(s: string, t: string)
    requires IsCanonicalDate(s) && IsCanonicalDate(t)
    requires NextDate(YearOf(s), MonthOf(s), DayOf(s)) == (YearOf(t), MonthOf(t), DayOf(t))
    ensures ParseIsoDate(s).Some? && ParseIsoDate(t).Some?
    ensures ParseIsoDate(t).value == ParseIsoDate(s).value + MsPerDay
  {
    NextDateIsNextDay(YearOf(s), MonthOf(s), DayOf(s));
  }

  /** Strings naming existing days parse to the same instant exactly when they are the same string. */
  lemma CanonicalDatesParseApart(s: string, t: string)
    requires IsCanonicalDate(s) && IsCanonicalDate(t)
    ensures ParseIsoDate(s).Some? && ParseIsoDate(t).Some?
    ensures ParseIsoDate(s) == ParseIsoDate(t) <==> s == t
  {
    if ParseIsoDate(s) == ParseIsoDate(t) {
      DaysFromCivilInjective(YearOf(s), MonthOf(s), DayOf(s), YearOf(t), MonthOf(t), DayOf(t));
      DecimalValueInjective(s[..4], t[..4]);
      DecimalValueInjective(s[5..7], t[5..7]);
      DecimalValueInjective(s[8..], t[8..]);
      assert s == s[..4] + s[4..5] + s[5..7] + s[7..8] + s[8..];
      assert t == t[..4] + t[4..5] + t[5..7] + t[7..8] + t[8..];
    }
  }

  /** `new Date("2023-02-30")` is 2 March 2023: the day of month is not checked against the month. */
  lemma FebruaryThirtiethIsMarchSecond()
    ensures ParseIsoDate("2023-02-30").Some?
    ensures ParseIsoDate("2023-02-30") == ParseIsoDate("2023-03-02")
  {
    var s, t := "2023-02-30", "2023-03-02";
    assert IsDateText(s) && IsDateText(t);
    DateFields(s);
    DateFields(t);
    DayOverflowRollsOver(2023, 2, 30);
  }

  // ---------------------------------------------------------------------
  // One day as a window of instants

  /** The half-open window `[dayStart, dayStart + one day)`. */
  predicate InDay(dayStart: int, t: int) {
    dayStart <= t < dayStart + MsPerDay
  }

  /** The window from a day's midnight holds exactly the instants of that day. */
  lemma InDayIsSameDay(day: int, t: int)
    ensures InDay(day * MsPerDay, t) <==> t / MsPerDay == day
  {
    if InDay(day * MsPerDay, t) {
      DivModUnique(t, MsPerDay, day, t - day * MsPerDay);
    } else {
      assert t == (t / MsPerDay) * MsPerDay + t % MsPerDay;
    }
  }
}
