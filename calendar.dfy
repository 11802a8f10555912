/**
  Calendar dates in the proleptic Gregorian calendar, as the JavaScript `Date`
  object of the picker sees them once the time of day is ignored.

  A date is a (year, month, day) triple with a 0-indexed month, as `getMonth()`
  returns it. `DayNumber` counts days from 0000-01-01; comparing two `Date`
  objects with `<` compares their time values, which at day granularity is
  comparing day numbers.
*/
module Calendar {

  datatype Date = Date(year: int, month: int, day: int)
  {
    /** The triple names a day that exists: month 0..11, day 1..length of month. */
    predicate Valid() {
      0 <= month < 12 && 1 <= day <= DaysInMonth(year, month)
    }
  }

  /**
    A day of the calendar. Every valid JavaScript `Date` denotes one; the model
    does not bound the year as the `Date` range (-271821 .. 275760) does.
  */
  type CalendarDate = d: Date | d.Valid() witness Date(1970, 0, 1)

  /** Gregorian rule: every 4th year, except centuries not divisible by 400. */
  predicate IsLeapYear(y: int) {
    y % 4 == 0 && (y % 100 != 0 || y % 400 == 0)
  }

  /** Length of the 0-indexed month `m` of year `y`. */
  function DaysInMonth(y: int, m: int): (n: int)
    requires 0 <= m < 12
    ensures 28 <= n <= 31
    ensures n == 31 <==> m == 0 || m == 2 || m == 4 || m == 6 || m == 7 || m == 9 || m == 11
    ensures n == 30 <==> m == 3 || m == 5 || m == 8 || m == 10
    ensures n == 29 <==> m == 1 && IsLeapYear(y)
  {
    if m == 1 then (if IsLeapYear(y) then 29 else 28)
    else if m == 3 || m == 5 || m == 8 || m == 10 then 30
    else 31
  }

  /** Days in the months of year `y` that precede month `m`. */
  function DaysBeforeMonth(y: int, m: int): int
    requires 0 <= m <= 12
  {
    if m == 0 then 0 else DaysBeforeMonth(y, m - 1) + DaysInMonth(y, m - 1)
  }

  /** Length of year `y`: the sum of its twelve months. */
  function DaysInYear(y: int): int {
    DaysBeforeMonth(y, 12)
  }

  /** Cumulative month offsets of a common year. */
  const CommonYearOffsets: seq<int> := [0, 31, 59, 90, 120, 151, 181, 212, 243, 273, 304, 334, 365]

  lemma {:induction false} DaysBeforeMonthClosedForm(y: int, m: int)
    requires 0 <= m <= 12
    ensures DaysBeforeMonth(y, m) == CommonYearOffsets[m] + (if m >= 2 && IsLeapYear(y) then 1 else 0)
  {
    if m > 0 {
      DaysBeforeMonthClosedForm(y, m - 1);
    }
  }

  lemma YearLength(y: int)
    ensures DaysInYear(y) == if IsLeapYear(y) then 366 else 365
  {
    DaysBeforeMonthClosedForm(y, 12);
  }

  /**
    Days from 0000-01-01 to the first day of year `y` (negative before year 0),
    counted in closed form: 365 per year plus one per leap year in between.
  */
  function DaysBeforeYear(y: int): int {
    365 * y + (y + 3) / 4 - (y + 99) / 100 + (y + 399) / 400
  }

  /** The closed-form count agrees with the leap-year rule, year by year. */
  lemma YearStep(y: int)
    ensures DaysBeforeYear(y + 1) == DaysBeforeYear(y) + DaysInYear(y)
  {
    YearLength(y);
    LeapDays(y);
  }

  /** Consecutive closed-form counts differ by 365, plus one for a leap year. */
  lemma LeapDays(y: int)
    ensures DaysBeforeYear(y + 1) - DaysBeforeYear(y) == if IsLeapYear(y) then 366 else 365
  {
    assert (y + 4) / 4 - (y + 3) / 4 == if y % 4 == 0 then 1 else 0;
    assert (y + 100) / 100 - (y + 99) / 100 == if y % 100 == 0 then 1 else 0;
    assert (y + 400) / 400 - (y + 399) / 400 == if y % 400 == 0 then 1 else 0;
  }

  /**
    Leap years repeat every 400 years, a 400-year span has 146097 days, and that
    is a whole number of weeks.
  */
  lemma {:induction false} FourHundredYearCycle(y: int)
    ensures IsLeapYear(y + 400) == IsLeapYear(y)
    ensures DaysBeforeYear(y + 400) == DaysBeforeYear(y) + 146097
    ensures 146097 % 7 == 0
  {
    assert (y + 403) / 4 == (y + 3) / 4 + 100;
    assert (y + 499) / 100 == (y + 99) / 100 + 4;
    assert (y + 799) / 400 == (y + 399) / 400 + 1;
  }

  /** Day count from 0000-01-01 (day 0) to `d`. */
  function DayNumber(d: CalendarDate): int {
    DaysBeforeYear(d.year) + DaysBeforeMonth(d.year, d.month) + d.day - 1
  }

  /**
    `a` is an earlier calendar day than `b`: year first, then month, then day.
    This is the `Date` comparison `a < b` (see `DayNumberOrder`).
  */
  predicate Before(a: Date, b: Date) {
    a.year < b.year
    || (a.year == b.year && a.month < b.month)
    || (a.year == b.year && a.month == b.month && a.day < b.day)
  }

  lemma {:induction false} YearsMonotone(y1: int, y2: int)
    requires y1 <= y2
    ensures DaysBeforeYear(y1) + 365 * (y2 - y1) <= DaysBeforeYear(y2)
    decreases y2 - y1
  {
    if y1 < y2 {
      YearsMonotone(y1, y2 - 1);
      YearStep(y2 - 1);
      YearLength(y2 - 1);
    }
  }

  lemma {:induction false} MonthsMonotone(y: int, m1: int, m2: int)
    requires 0 <= m1 <= m2 <= 12
    ensures DaysBeforeMonth(y, m1) + 28 * (m2 - m1) <= DaysBeforeMonth(y, m2)
    decreases m2 - m1
  {
    if m1 < m2 {
      MonthsMonotone(y, m1, m2 - 1);
    }
  }

  /** Within its year, a date's offset lies in 0 .. DaysInYear - 1. */
  lemma DayOfYearBounds(d: CalendarDate)
    ensures 0 <= DaysBeforeMonth(d.year, d.month) + d.day - 1 < DaysInYear(d.year)
  {
    MonthsMonotone(d.year, 0, d.month);
    MonthsMonotone(d.year, d.month + 1, 12);
  }

  lemma BeforeImpliesSmallerDayNumber(a: CalendarDate, b: CalendarDate)
    requires Before(a, b)
    ensures DayNumber(a) < DayNumber(b)
  {
    DayOfYearBounds(a);
    DayOfYearBounds(b);
    if a.year < b.year {
      YearStep(a.year);
      YearsMonotone(a.year + 1, b.year);
    } else if a.month < b.month {
      MonthsMonotone(a.year, a.month + 1, b.month);
    }
  }

  /** Comparing calendar fields is comparing time values. */
  lemma DayNumberOrder(a: CalendarDate, b: CalendarDate)
    ensures Before(a, b) <==> DayNumber(a) < DayNumber(b)
  {
    if Before(a, b) {
      BeforeImpliesSmallerDayNumber(a, b);
    } else if Before(b, a) {
      BeforeImpliesSmallerDayNumber(b, a);
    }
  }

  /** Distinct dates have distinct day numbers. */
  lemma DayNumberInjective(a: CalendarDate, b: CalendarDate)
    ensures DayNumber(a) == DayNumber(b) <==> a == b
  {
    DayNumberOrder(a, b);
    DayNumberOrder(b, a);
  }

  /** The calendar day after `d`: `d.setDate(d.getDate() + 1)`. */
  function NextDay(d: CalendarDate): CalendarDate {
    if d.day < DaysInMonth(d.year, d.month) then
      Date(d.year, d.month, d.day + 1)
    else if d.month < 11 then
      Date(d.year, d.month + 1, 1)
    else
      Date(d.year + 1, 0, 1)
  }

  /** The calendar day before `d`: what day 0 of a month denotes. */
  function PrevDay(d: CalendarDate): CalendarDate {
    if d.day > 1 then
      Date(d.year, d.month, d.day - 1)
    else if d.month > 0 then
      Date(d.year, d.month - 1, DaysInMonth(d.year, d.month - 1))
    else
      Date(d.year - 1, 11, 31)
  }

  /** The next day is one day later in time, across month and year ends. */
  lemma NextDayNumber(d: CalendarDate)
    ensures DayNumber(NextDay(d)) == DayNumber(d) + 1
    ensures Before(d, NextDay(d))
  {
    if d.day == DaysInMonth(d.year, d.month) && d.month == 11 {
      YearStep(d.year);
      DaysBeforeMonthClosedForm(d.year, 11);
      YearLength(d.year);
    }
  }

  lemma PrevDayNumber(d: CalendarDate)
    ensures DayNumber(PrevDay(d)) == DayNumber(d) - 1
  {
    NextDayNumber(PrevDay(d));
  }

  /** Nothing lies strictly between a day and the next one. */
  lemma NoDayBetween(d: CalendarDate, x: CalendarDate)
    ensures Before(d, x) <==> !Before(x, NextDay(d))
  {
    NextDayNumber(d);
    DayNumberOrder(d, x);
    DayNumberOrder(x, NextDay(d));
  }

  lemma NextPrevInverse(d: CalendarDate)
    ensures PrevDay(NextDay(d)) == d
    ensures NextDay(PrevDay(d)) == d
  {
    NextDayNumber(d);
    PrevDayNumber(NextDay(d));
    PrevDayNumber(d);
    NextDayNumber(PrevDay(d));
    DayNumberInjective(PrevDay(NextDay(d)), d);
    DayNumberInjective(NextDay(PrevDay(d)), d);
  }

  /** `getDay()`: 0 is Sunday, ..., 6 is Saturday; 0000-01-01 was a Saturday. */
  function Weekday(d: CalendarDate): (w: int)
    ensures 0 <= w < 7
  {
    (DayNumber(d) + 6) % 7
  }

  /** `isWeekend`: Sunday or Saturday. */
  predicate IsWeekend(d: CalendarDate) {
    var w := Weekday(d);
    w == 0 || w == 6
  }

  lemma WeekdayAdvances(d: CalendarDate)
    ensures Weekday(NextDay(d)) == (Weekday(d) + 1) % 7
  {
    NextDayNumber(d);
    ModSuccessor(DayNumber(d) + 6);
  }

  lemma ModSuccessor(x: int)
    ensures (x + 1) % 7 == (x % 7 + 1) % 7
  {
  }

  /** 1970-01-01, the JavaScript epoch, was a Thursday. */
  lemma EpochIsThursday()
    ensures Weekday(Date(1970, 0, 1)) == 4
  {
  }

  /** Sakamoto's month table, January first. */
  const SakamotoOffsets: seq<int> := [0, 3, 2, 5, 0, 3, 5, 1, 4, 6, 2, 4]

  /**
    Sakamoto's weekday formula, an independent reference (0 = Sunday); `m` is
    the 1-indexed month and division rounds toward minus infinity.
  */
  function SakamotoWeekday(y: int, m: int, d: int): int
    requires 1 <= m <= 12
  {
    var yy := if m < 3 then y - 1 else y;
    (yy + yy / 4 - yy / 100 + yy / 400 + SakamotoOffsets[m - 1] + d) % 7
  }

  /** `isWeekend` agrees with the reference formula: Sakamoto's weekday is 0 or 6. */
  lemma WeekendMatchesSakamoto(d: CalendarDate)
    ensures IsWeekend(d) <==> SakamotoWeekday(d.year, d.month + 1, d.day) in {0, 6}
  {
    WeekdayMatchesSakamoto(d);
  }

  lemma ModShift(a: int, k: int)
    ensures (a + 7 * k) % 7 == a % 7
  {
  }

  /** The closed form of `DaysBeforeYear` written with the floors of `y - 1` and of `y`. */
  lemma DaysBeforeYearFloors(y: int)
    ensures DaysBeforeYear(y) == 365 * y + (y - 1) / 4 - (y - 1) / 100 + (y - 1) / 400 + 1
    ensures DaysBeforeYear(y) + (if IsLeapYear(y) then 1 else 0) == 365 * y + y / 4 - y / 100 + y / 400 + 1
  {
    assert (y + 3) / 4 == (y - 1) / 4 + 1;
    assert (y + 99) / 100 == (y - 1) / 100 + 1;
    assert (y + 399) / 400 == (y - 1) / 400 + 1;
    YearStep(y);
    YearLength(y);
    assert DaysBeforeYear(y + 1) == 365 * y + 365 + y / 4 - y / 100 + y / 400 + 1 by {
      assert (y + 4) / 4 == y / 4 + 1;
      assert (y + 100) / 100 == y / 100 + 1;
      assert (y + 400) / 400 == y / 400 + 1;
    }
  }

  /** Sakamoto's month table minus the common-year offsets is 6 (mod 7) from March on, 0 before. */
  lemma SakamotoTable(m: int)
    requires 0 <= m < 12
    ensures (CommonYearOffsets[m] + (if m < 2 then 0 else 6) - SakamotoOffsets[m]) % 7 == 0
  {
  }

  /** The year part of the day number, counted from the year Sakamoto's formula uses. */
  lemma SakamotoYearDays(y: int, m: int)
    requires 0 <= m < 12
    ensures var yy := if m < 2 then y - 1 else y;
            DaysBeforeYear(y) + (if m >= 2 && IsLeapYear(y) then 1 else 0)
            == 365 * yy + yy / 4 - yy / 100 + yy / 400 + (if m < 2 then 366 else 1)
  {
    DaysBeforeYearFloors(y);
  }

  lemma WeekCongruence(a: int, b: int, x: int, q: int)
    requires a == b + x + 7 * q && x % 7 == 0
    ensures a % 7 == b % 7
  {
    ModShift(b + x, q);
    ModShift(b, x / 7);
  }

  lemma WeekdayMatchesSakamoto(d: CalendarDate)
    ensures Weekday(d) == SakamotoWeekday(d.year, d.month + 1, d.day)
  {
    var y, m := d.year, d.month;
    var tm := SakamotoOffsets[m];
    var off := CommonYearOffsets[m];
    DaysBeforeMonthClosedForm(y, m);
    SakamotoYearDays(y, m);
    SakamotoTable(m);
    var yy := if m < 2 then y - 1 else y;
    var s := yy + yy / 4 - yy / 100 + yy / 400 + tm + d.day;
    assert SakamotoWeekday(y, m + 1, d.day) == s % 7;
    WeekCongruence(DayNumber(d) + 6, s, off + (if m < 2 then 0 else 6) - tm, 52 * yy + (if m < 2 then 53 else 0));
  }

  /** A date and the same date 400 years later fall on the same weekday. */
  lemma WeekdayRepeats(d: CalendarDate)
    ensures Date(d.year + 400, d.month, d.day).Valid()
    ensures Weekday(Date(d.year + 400, d.month, d.day)) == Weekday(d)
  {
    FourHundredYearCycle(d.year);
    DaysBeforeMonthClosedForm(d.year, d.month);
    DaysBeforeMonthClosedForm(d.year + 400, d.month);
    var later := Date(d.year + 400, d.month, d.day);
    assert DayNumber(later) == DayNumber(d) + 7 * 20871;
    ModShift(DayNumber(d) + 6, 20871);
  }
}
