/**
  `generateCalendarDays(year, month)`: every day of one month, in order.

  The month's bounds come from the `Date` constructor, as in the source:
  `new Date(year, month, 1)` is its first day and `new Date(year, month + 1, 0)`
  (day 0 of the next month) its last. The constructor reads a year argument
  0..99 as 1900..1999 and carries a month argument outside 0..11 into the year.
*/
module MonthGrid {
  import opened Calendar

  /** The year `new Date(year, ...)` uses for its year argument. */
  function ConstructorYear(year: int): (y: int)
    ensures y == year <==> !(0 <= year <= 99)
  {
    if 0 <= year <= 99 then 1900 + year else year
  }

  /** The year shown by the grid of `(year, month)`, once `month` is carried into it. */
  function GridYear(year: int, month: int): (y: int)
    ensures 0 <= month < 12 ==> y == ConstructorYear(year)
  {
    ConstructorYear(year) + month / 12
  }

  /** `new Date(year, month, 1)`. */
  function FirstOfMonth(year: int, month: int): CalendarDate {
    Date(ConstructorYear(year) + month / 12, month % 12, 1)
  }

  /** `new Date(year, month + 1, 0)`: the day before the first of the next month. */
  function LastOfMonth(year: int, month: int): CalendarDate {
    PrevDay(FirstOfMonth(year, month + 1))
  }

  /** Day 0 of the next month is the final day of this one. */
  lemma LastOfMonthIsFinalDay(year: int, month: int)
    ensures LastOfMonth(year, month)
         == Date(GridYear(year, month), month % 12, DaysInMonth(GridYear(year, month), month % 12))
  {
    if month % 12 == 11 {
      assert (month + 1) / 12 == month / 12 + 1 && (month + 1) % 12 == 0;
    } else {
      assert (month + 1) / 12 == month / 12 && (month + 1) % 12 == month % 12 + 1;
    }
  }

  /** The days of the month as `generateCalendarDays` lists them. */
  method GenerateCalendarDays(year: int, month: int) returns (days: seq<CalendarDate>)
    ensures |days| == DaysInMonth(GridYear(year, month), month % 12)
    ensures forall i :: 0 <= i < |days| ==> days[i] == Date(GridYear(year, month), month % 12, i + 1)
    ensures days[0] == FirstOfMonth(year, month) && days[|days| - 1] == LastOfMonth(year, month)
    ensures forall i :: 0 < i < |days| ==> days[i] == NextDay(days[i - 1])
  {
    var y, m := GridYear(year, month), month % 12;
    var n := DaysInMonth(y, m);
    var firstDay := FirstOfMonth(year, month);
    var lastDay := LastOfMonth(year, month);
    LastOfMonthIsFinalDay(year, month);
    days := [];
    var d := firstDay;
    while !Before(lastDay, d)
      invariant |days| <= n
      invariant forall i :: 0 <= i < |days| ==> days[i] == Date(y, m, i + 1)
      invariant |days| < n ==> d == Date(y, m, |days| + 1)
      invariant |days| == n ==> Before(lastDay, d)
      decreases n - |days|
    {
      days := days + [d];
      d := NextDay(d);
    }
  }
}
