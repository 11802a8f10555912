/**
  The `WeekdayDateRangePicker` component's state and event handlers.

  The four `useState` hooks become the fields of a class, and each handler
  becomes a method that updates them. The `onChange` callback prop is the
  result of the method that may call it.
*/
module DatePicker {
  import opened Wrappers
  import opened Calendar
  import opened MonthGrid
  import opened IsoFormat
  import opened RangeEmission
  import opened SelectionMachine
  import opened Navigation

  class WeekdayDateRangePicker {
    var startDate: Option<CalendarDate>
    var endDate: Option<CalendarDate>
    var displayedYear: int
    var displayedMonth: int

    /** The month index stays a month, and an end is chosen only after a start. */
    ghost predicate Valid()
      reads this
    {
      0 <= displayedMonth < 12 && (endDate.Some? ==> startDate.Some?)
    }

    /** The selection part of the state. */
    function CurrentSelection(): Selection
      reads this
    {
      Selection(startDate, endDate)
    }

    /** Mounting: nothing selected, the display on the current month (passed in). */
    constructor (todayYear: int, todayMonth: int)
      requires 0 <= todayMonth < 12
      ensures Valid()
      ensures startDate == None && endDate == None
      ensures displayedYear == todayYear && displayedMonth == todayMonth
    {
      startDate := None;
      endDate := None;
      displayedYear := todayYear;
      displayedMonth := todayMonth;
    }

    /** `handleDateClick`: updates the selection as `Click` does and never emits. */
    method HandleDateClick(date: CalendarDate)
      requires Valid()
      modifies this
      ensures Valid()
      ensures CurrentSelection() == Click(old(CurrentSelection()), date)
      ensures displayedYear == old(displayedYear) && displayedMonth == old(displayedMonth)
    {
      if IsWeekend(date) {
        return;
      }
      if startDate.None? || (startDate.Some? && endDate.Some?) {
        startDate := Some(date);
        endDate := None;
      } else if startDate.Some? && endDate.None? {
        if Before(date, startDate.value) {
          endDate := startDate;
          startDate := Some(date);
        } else {
          endDate := Some(date);
        }
      }
    }

    /** `handlePredefinedRange`: takes both ends as given, then emits for them. */
    method HandlePredefinedRange(start: CalendarDate, end: CalendarDate)
      returns (emitted: Option<ChangeEvent>)
      requires Valid()
      modifies this
      ensures Valid()
      ensures startDate == Some(start) && endDate == Some(end)
      ensures displayedYear == old(displayedYear) && displayedMonth == old(displayedMonth)
      ensures emitted == Some(ChangeFor(start, end))
    {
      startDate := Some(start);
      endDate := Some(end);
      emitted := ComputeChangeHandler(Some(start), Some(end));
    }

    /** The year "-" button. */
    method DecrementYear()
      requires Valid()
      modifies this
      ensures Valid()
      ensures displayedYear == old(displayedYear) - 1 && displayedMonth == old(displayedMonth)
      ensures startDate == old(startDate) && endDate == old(endDate)
    {
      displayedYear := PreviousYear(displayedYear);
    }

    /** The year "+" button. */
    method IncrementYear()
      requires Valid()
      modifies this
      ensures Valid()
      ensures displayedYear == old(displayedYear) + 1 && displayedMonth == old(displayedMonth)
      ensures startDate == old(startDate) && endDate == old(endDate)
    {
      displayedYear := NextYear(displayedYear);
    }

    /** The month "-" button: January goes to December of the same year. */
    method DecrementMonth()
      requires Valid()
      modifies this
      ensures Valid()
      ensures displayedMonth == if old(displayedMonth) == 0 then 11 else old(displayedMonth) - 1
      ensures displayedYear == old(displayedYear)
      ensures startDate == old(startDate) && endDate == old(endDate)
    {
      displayedMonth := PreviousMonth(displayedMonth);
    }

    /** The month "+" button: December goes to January of the same year. */
    method IncrementMonth()
      requires Valid()
      modifies this
      ensures Valid()
      ensures displayedMonth == if old(displayedMonth) == 11 then 0 else old(displayedMonth) + 1
      ensures displayedYear == old(displayedYear)
      ensures startDate == old(startDate) && endDate == old(endDate)
    {
      displayedMonth := NextMonth(displayedMonth);
    }

    /** The grid rendered for the displayed month. */
    method Days() returns (days: seq<CalendarDate>)
      requires Valid()
      ensures |days| == DaysInMonth(ConstructorYear(displayedYear), displayedMonth)
      ensures forall i :: 0 <= i < |days| ==> days[i] == Date(ConstructorYear(displayedYear), displayedMonth, i + 1)
    {
      days := GenerateCalendarDays(displayedYear, displayedMonth);
    }

    /** Whether a grid cell is drawn as part of the selected range. */
    predicate IsHighlighted(day: CalendarDate)
      reads this
    {
      startDate.Some? && endDate.Some?
      && !Before(day, startDate.value) && !Before(endDate.value, day)
      && !IsWeekend(day)
    }
  }

  /**
    A highlighted cell is a weekday of the selected range, so it is never among
    the weekends that range reports.
  */
  lemma HighlightedNotReported(p: WeekdayDateRangePicker, day: CalendarDate)
    requires p.IsHighlighted(day)
    ensures !IsWeekend(day)
    ensures Format(day) !in ChangeFor(p.startDate.value, p.endDate.value).weekends
  {
    var s, e := p.startDate.value, p.endDate.value;
    var w := WeekendDays(s, e);
    forall i | 0 <= i < |w|
      ensures Format(w[i]) != Format(day)
    {
      WeekendDaysExact(s, e, w[i]);
      FormatInjective(w[i], day);
    }
  }
}
