# Weekday date-range picker: a verified model

This project models the logic of the `WeekdayDateRangePicker` React component.
The component shows one month as a grid of days. The user picks a start and an
end day by clicking; Saturdays and Sundays cannot be clicked. A predefined
range can be chosen instead. When a range is chosen this way, the component
calls `onChange` with the range's ISO dates (`YYYY-MM-DD`) and the list of
weekend dates inside the range.

The model has eight modules:

- `Wrappers` holds `Option`, the stand-in for `Date | null`.
- `Calendar` holds dates with a 0-indexed month, as `getMonth()` gives them,
  and the proleptic Gregorian calendar.
  - `DayNumber` counts days from 0000-01-01. Comparing two `Date` objects
    (`<`, `<=`) compares day numbers; `Before` is the same order on the
    calendar fields.
  - `Weekday` is `getDay()`: 0 is Sunday and 6 is Saturday. It is cross-checked
    against Sakamoto's formula.
  - `IsWeekend` is `isWeekend`.
  - `NextDay` is `setDate(getDate() + 1)`, and `PrevDay` is what day 0 of a
    month denotes.
- `IsoFormat` holds `Format`, the text `toISOString().split("T")[0]` gives.
  `ParseIso` is its inverse, which proves that distinct days get distinct texts.
- `MonthGrid` holds `generateCalendarDays` and the `new Date(year, month, day)`
  constructor rules it relies on:
  - a year argument 0..99 means 1900..1999;
  - a month argument outside 0..11 carries into the year;
  - day 0 is the last day of the previous month.
- `RangeEmission` holds `computeChangeHandler`. Its result is the `onChange`
  call: `None` if `onChange` is not called, `Some(event)` if it is called once
  with `event`.
- `SelectionMachine` holds `handleDateClick` as a transition on
  (`startDate`, `endDate`).
- `Navigation` holds the month and year buttons' updaters. The month updaters
  use JavaScript's truncating `%`; the year updaters subtract or add one.
- `DatePicker` holds the component itself: a class with the four state
  variables as fields and one method per handler.

The current date is read from the system clock when the component mounts. In
the model it is a constructor parameter. `onChange` becomes a return value.

## Model

| member | source | states |
|---|---|---|
| Calendar.DaysInMonth | src/components/DatePicker.tsx:26-27 | a month has 28 to 31 days; 31 exactly for January, March, May, July, August, October and December; 30 exactly for April, June, September and November; 29 exactly for February of a leap year |
| Calendar.YearLength | src/components/DatePicker.tsx:27 | a year has 366 days if it is a Gregorian leap year, otherwise 365 |
| Calendar.YearStep | src/components/DatePicker.tsx:67 | the closed-form day count before a year grows by exactly the length of that year |
| Calendar.FourHundredYearCycle | src/components/DatePicker.tsx:21 | a year and the year 400 later are both leap years or both common; 400 years from any year span 146097 days, a whole number of weeks |
| Calendar.WeekdayRepeats | src/components/DatePicker.tsx:21 | every date exists again 400 years later and falls on the same weekday there |
| Calendar.DayNumberOrder | src/components/DatePicker.tsx:42 | one date is before another, field by field, exactly when its time value is smaller; this makes `Before` the `Date` comparison `<` |
| Calendar.DayNumberInjective | src/components/DatePicker.tsx:63 | two dates have the same time value exactly when they are the same date |
| Calendar.NextDayNumber | src/components/DatePicker.tsx:67 | stepping to the next date adds exactly one day to the time value, across month and year ends, and moves strictly forward |
| Calendar.PrevDayNumber | src/components/DatePicker.tsx:27 | day 0 of a month is exactly one day before its 1st |
| Calendar.NoDayBetween | src/components/DatePicker.tsx:63-67 | no date lies strictly between a date and the next one, so a day-by-day walk misses none |
| Calendar.NextPrevInverse | src/components/DatePicker.tsx:27 | the next and the previous day undo each other |
| Calendar.Weekday | src/components/DatePicker.tsx:21 | `getDay()` is always 0..6 |
| Calendar.WeekdayAdvances | src/components/DatePicker.tsx:67 | each next day is the next weekday, Saturday wrapping to Sunday |
| Calendar.EpochIsThursday | src/components/DatePicker.tsx:21 | 1970-01-01 is a Thursday (4) |
| Calendar.WeekdayMatchesSakamoto | src/components/DatePicker.tsx:21 | the weekday equals Sakamoto's independent formula for every date |
| Calendar.WeekendMatchesSakamoto | src/components/DatePicker.tsx:20-23 | `isWeekend` holds exactly when the reference weekday is Sunday (0) or Saturday (6) |
| IsoFormat.FormatAll | src/components/DatePicker.tsx:65 | the formatted list has one text per date, in the same order |
| IsoFormat.DecimalRoundTrip | src/components/DatePicker.tsx:65 | the zero-padded decimal digits of a number read back as that number |
| IsoFormat.FormatShape | src/components/DatePicker.tsx:65 | for years 0..9999 the text is `YYYY-MM-DD`: ten characters, dashes at positions 4 and 7, decimal digits everywhere else |
| IsoFormat.FormatRoundTrip | src/components/DatePicker.tsx:65 | parsing the emitted `YYYY-MM-DD` text gives back the date |
| IsoFormat.FormatInjective | src/components/DatePicker.tsx:71 | two dates get the same text exactly when they are the same date |
| IsoFormat.MarchTwentyTwentyFourEndsText | src/components/DatePicker.tsx:71 | 2024-03-01 and 2024-03-10 are written "2024-03-01" and "2024-03-10" |
| IsoFormat.MarchTwentyTwentyFourWeekendsText | src/components/DatePicker.tsx:65 | the weekends of the 2024-03-01 .. 2024-03-10 example are written "2024-03-02", "2024-03-03", "2024-03-09", "2024-03-10" |
| MonthGrid.ConstructorYear | src/components/DatePicker.tsx:26 | the constructor keeps a year argument exactly when it lies outside 0..99 |
| MonthGrid.GridYear | src/components/DatePicker.tsx:26 | for a month index 0..11 the grid's year is the constructor's year |
| MonthGrid.LastOfMonthIsFinalDay | src/components/DatePicker.tsx:27 | `new Date(year, month + 1, 0)` is the final day of the month, December included |
| MonthGrid.GenerateCalendarDays | src/components/DatePicker.tsx:25-33 | the grid lists every day of the month once, in order: as many entries as the month has days, entry i is day i + 1, the first is `new Date(year, month, 1)`, the last is `new Date(year, month + 1, 0)`, and each entry is the day after the one before |
| RangeEmission.WalkNumber | src/components/DatePicker.tsx:67 | after k steps the walk is exactly k days after the start |
| RangeEmission.ComputeChangeHandler | src/components/DatePicker.tsx:57-75 | `onChange` is called (once) exactly when both dates are present; it receives the two formatted endpoints and the formatted weekend days walked from start to end |
| RangeEmission.WalkReaches | src/components/DatePicker.tsx:63 | the loop guard `current <= endDate` holds exactly for the first `Span(s, e)` steps |
| RangeEmission.FormatAllAppend | src/components/DatePicker.tsx:65 | formatting a joined list is joining the formatted lists |
| RangeEmission.EmissionStep | src/components/DatePicker.tsx:64-66 | one loop step appends the current day's text exactly when it is a weekend |
| RangeEmission.WeekendsAmongMembers | src/components/DatePicker.tsx:63-68 | a date is collected in the first n days exactly when it is a weekend within those n days |
| RangeEmission.WeekendsPrecedeWalk | src/components/DatePicker.tsx:63-68 | every weekend collected so far is before the day the walk has reached |
| RangeEmission.WeekendsAmongChronological | src/components/DatePicker.tsx:63-68 | the collected weekends are in strictly increasing order |
| RangeEmission.WeekendDaysExact | src/components/DatePicker.tsx:63-68 | a date is reported exactly when it is a weekend day no earlier than the start and no later than the end |
| RangeEmission.WeekendDaysChronological | src/components/DatePicker.tsx:63-68 | the reported weekends are strictly chronological |
| RangeEmission.EmittedWeekendsDistinct | src/components/DatePicker.tsx:65-72 | the emitted weekend texts are pairwise distinct |
| RangeEmission.ReversedRangeHasNoWeekends | src/components/DatePicker.tsx:63 | when the end is before the start, the loop never runs and the weekend list is empty |
| RangeEmission.MarchTwentyTwentyFour | src/components/DatePicker.tsx:57-75 | for 2024-03-01 .. 2024-03-10 the event is ("2024-03-01", "2024-03-10") with weekends "2024-03-02", "2024-03-03", "2024-03-09", "2024-03-10" |
| RangeEmission.MarchTwentyTwentyFourWeekends | src/components/DatePicker.tsx:63-68 | the weekend dates of 2024-03-01 .. 2024-03-10 are the 2nd, 3rd, 9th and 10th |
| RangeEmission.FridayTenDays | src/components/DatePicker.tsx:63-68 | the ten days from a Friday hold weekends on days 1, 2, 8 and 9 of the walk |
| RangeEmission.WeekendsAmongCount | src/components/DatePicker.tsx:63-68 | the number of weekends collected depends only on the first day's weekday and the length of the walk |
| RangeEmission.WeekCount | src/components/DatePicker.tsx:20-23 | seven consecutive weekdays include exactly two weekend days, whatever the first one is |
| RangeEmission.WeekendsPerWeek | src/components/DatePicker.tsx:63-68 | any seven consecutive days hold exactly two reported weekend days |
| RangeEmission.WalkWeekday | src/components/DatePicker.tsx:64-67 | walking k days moves the weekday forward by k, modulo 7 |
| RangeEmission.WalkWithinMonth | src/components/DatePicker.tsx:67 | walking from the 1st stays in the month, day k + 1 after k steps |
| SelectionMachine.WeekendClickIgnored | src/components/DatePicker.tsx:36 | a weekend click changes neither date, in any state |
| SelectionMachine.ClickStartsAfresh | src/components/DatePicker.tsx:38-40 | with no start, or after a completed range, a weekday click sets the start to that day and clears the end |
| SelectionMachine.ClickCompletes | src/components/DatePicker.tsx:41-47 | a weekday click after a lone start completes the range as (earlier day, later day), comparing time values |
| SelectionMachine.ClickPreservesReachable | src/components/DatePicker.tsx:35-49 | a click keeps: an end only with a start, the end not before the start, no weekend endpoint |
| SelectionMachine.ClicksPreserveReachable | src/components/DatePicker.tsx:35-49 | any sequence of clicks keeps that invariant |
| SelectionMachine.ClicksFromEmpty | src/components/DatePicker.tsx:14-15 | every selection reached by clicks from the empty state is ordered and has weekday endpoints |
| SelectionMachine.TwoClicks | src/components/DatePicker.tsx:35-49 | two weekday clicks from the empty state select the earlier and the later day, in that order |
| SelectionMachine.ThirdClickRestarts | src/components/DatePicker.tsx:38-40 | a third weekday click discards the completed range and starts a new one |
| Navigation.JsRemainder | src/components/DatePicker.tsx:99 | JavaScript's `%` agrees with the mathematical remainder on non-negative dividends and is never positive for negative ones |
| Navigation.PreviousMonth | src/components/DatePicker.tsx:99 | from a month 0..11 the "-" button gives a month 0..11: the one before, January going to December |
| Navigation.NextMonth | src/components/DatePicker.tsx:110 | from a month 0..11 the "+" button gives a month 0..11: the one after, December going to January |
| Navigation.PreviousYear | src/components/DatePicker.tsx:84 | the year "-" button gives exactly one year less, with no lower bound |
| Navigation.NextYear | src/components/DatePicker.tsx:91 | the year "+" button gives exactly one year more, with no upper bound |
| Navigation.YearStepsCancel | src/components/DatePicker.tsx:84-91 | "+" then "-", or "-" then "+", returns to the same year |
| Navigation.MonthStepsCancel | src/components/DatePicker.tsx:99-110 | "+" then "-", or "-" then "+", returns to the same month |
| Navigation.NextMonthPressesWrap | src/components/DatePicker.tsx:110 | k presses of "+" move the month by k modulo 12, so twelve presses return to the start month |
| Navigation.TwelveSuccessor | src/components/DatePicker.tsx:110 | the remainder by 12 of a successor is the successor of the remainder, 11 wrapping to 0 |
| DatePicker.WeekdayDateRangePicker.constructor | src/components/DatePicker.tsx:14-17 | mounting selects nothing and displays the given current year and month |
| DatePicker.WeekdayDateRangePicker.HandleDateClick | src/components/DatePicker.tsx:35-49 | the dates change exactly as `Click` says, the display does not change, and nothing is emitted |
| DatePicker.WeekdayDateRangePicker.HandlePredefinedRange | src/components/DatePicker.tsx:51-55 | both dates are set to the range as given, the display does not change, and `onChange` is called once with the event for that range |
| DatePicker.WeekdayDateRangePicker.DecrementYear | src/components/DatePicker.tsx:84 | the displayed year goes down by exactly one; month and selection are unchanged |
| DatePicker.WeekdayDateRangePicker.IncrementYear | src/components/DatePicker.tsx:91 | the displayed year goes up by exactly one; month and selection are unchanged |
| DatePicker.WeekdayDateRangePicker.DecrementMonth | src/components/DatePicker.tsx:99 | the displayed month moves back one, January going to December; the year and selection are unchanged |
| DatePicker.WeekdayDateRangePicker.IncrementMonth | src/components/DatePicker.tsx:110 | the displayed month moves forward one, December going to January; the year and selection are unchanged |
| DatePicker.WeekdayDateRangePicker.Days | src/components/DatePicker.tsx:77 | the rendered grid holds every day of the displayed month in order |
| DatePicker.HighlightedNotReported | src/components/DatePicker.tsx:133-141 | a highlighted cell is a weekday, so it is never among the weekends reported for the selected range |

## Left out

- The JSX markup and Tailwind classes (src/components/DatePicker.tsx:79-157) are presentation. Only the highlight condition (:133-141) is modelled, as `IsHighlighted`.
- The "Today" button (:117-119) has no handler, so it does nothing to model.
- The month name from `toLocaleString` (:105-107) depends on the locale and is not modelled.
- `toISOString` converts to UTC first (:65, :71). Depending on the host time zone, this can move a local date by a day. `Format` does not model that: it writes the calendar date itself as `YYYY-MM-DD`.
- Time of day is not modelled: every date is a whole calendar day, and comparisons compare calendar days. Two effects of the time of day are therefore not captured.
  - Where daylight saving time starts at midnight, `new Date(y, m, d)` for that day lands at 01:00, and the `setDate` steps (:29) keep 01:00. The last step then fails `d <= lastDay` (midnight), so `generateCalendarDays` omits the month's last day; `GenerateCalendarDays` always lists it.
  - A predefined range whose end carries an earlier time of day than its start stops the walk (:63) one calendar day early; `ComputeChangeHandler` always includes the end day.
- The `Date` value range is not modelled. A JavaScript time value lies within ±8.64e15 ms, the years -271821 .. 275760, and `CalendarDate` has no such bound. The year "+" and "-" buttons reach years outside it after enough presses.
- MonthGrid.GenerateCalendarDays: outside the `Date` range, `new Date` is an Invalid Date, `NaN <= NaN` is false and `generateCalendarDays` (:25-33) returns an empty grid; the model lists the month's days for every year.
- DatePicker.WeekdayDateRangePicker.Days: inherits the same gap, a full grid where the source renders none.
- IsoFormat.Format: outside the `Date` range `toISOString` throws a `RangeError` (:65, :71); `Format` still writes a year text. Within the range, expanded years have exactly six digits.
- `src/App.tsx` is not part of this model. It reads the clock and logs to the console.
- React's state scheduling is not modelled. Each handler's updates take effect together at the end of the call, which is what the next render sees.
- `new Date()` at mount (:16-17) is the clock. The constructor takes the current year and month as parameters instead.
- The month buttons wrap 11 to 0 and 0 to 11 without changing the year (:99, :110). The model keeps this, as written.
- `handleDateClick` never calls `onChange`, even when it completes a range (:35-49). The model keeps this, as written.
- Navigation.JsRemainder: states the sign and range for negative dividends, not the exact value, because the month buttons only ever pass non-negative dividends from a valid month.
