/**
  `handleDateClick` as a transition on the picker's two selection fields,
  `startDate` and `endDate`, each possibly absent.

  A weekend click is ignored. A click with no start, or after a completed
  range, starts afresh. A click after a lone start completes the range, the
  earlier of the two days becoming the start. Completing a range by clicks
  emits no change event: the source never calls `computeChangeHandler` here.
*/
module SelectionMachine {
  import opened Wrappers
  import opened Calendar

  datatype Selection = Selection(startDate: Option<CalendarDate>, endDate: Option<CalendarDate>)

  /** The initial state: nothing selected. */
  const Empty := Selection(None, None)

  /** `handleDateClick(date)`. */
  function Click(sel: Selection, date: CalendarDate): Selection {
    if IsWeekend(date) then sel
    else if sel.startDate.None? || sel.endDate.Some? then Selection(Some(date), None)
    else if Before(date, sel.startDate.value) then Selection(Some(date), sel.startDate)
    else Selection(sel.startDate, Some(date))
  }

  /** A sequence of clicks, first to last. */
  function Clicks(sel: Selection, dates: seq<CalendarDate>): Selection
    decreases |dates|
  {
    if dates == [] then sel else Clicks(Click(sel, dates[0]), dates[1..])
  }

  /** The earlier of two days, by time value. */
  function Earlier(a: CalendarDate, b: CalendarDate): CalendarDate {
    if DayNumber(a) <= DayNumber(b) then a else b
  }

  /** The later of two days, by time value. */
  function Later(a: CalendarDate, b: CalendarDate): CalendarDate {
    if DayNumber(a) <= DayNumber(b) then b else a
  }

  /**
    The states clicks can lead to: an end only with a start, never before it,
    and no weekend endpoint.
  */
  predicate ClickReachable(sel: Selection) {
    (sel.startDate.Some? ==> !IsWeekend(sel.startDate.value))
    && (sel.endDate.Some? ==>
          sel.startDate.Some? && !IsWeekend(sel.endDate.value)
          && !Before(sel.endDate.value, sel.startDate.value))
  }

  /** A weekend click changes neither field, whatever the state. */
  lemma WeekendClickIgnored(sel: Selection, date: CalendarDate)
    requires IsWeekend(date)
    ensures Click(sel, date) == sel
  {
  }

  /** With no start, or after a completed range, a weekday click starts a new selection. */
  lemma ClickStartsAfresh(sel: Selection, date: CalendarDate)
    requires !IsWeekend(date)
    requires sel.startDate.None? || sel.endDate.Some?
    ensures Click(sel, date) == Selection(Some(date), None)
  {
  }

  /** A weekday click after a lone start completes the range as (earlier, later). */
  lemma ClickCompletes(start: CalendarDate, date: CalendarDate)
    requires !IsWeekend(date)
    ensures Click(Selection(Some(start), None), date)
         == Selection(Some(Earlier(start, date)), Some(Later(start, date)))
  {
    DayNumberOrder(date, start);
    DayNumberInjective(date, start);
  }

  lemma ClickPreservesReachable(sel: Selection, date: CalendarDate)
    requires ClickReachable(sel)
    ensures ClickReachable(Click(sel, date))
  {
  }

  lemma {:induction false} ClicksPreserveReachable(sel: Selection, dates: seq<CalendarDate>)
    requires ClickReachable(sel)
    ensures ClickReachable(Clicks(sel, dates))
    decreases |dates|
  {
    if dates != [] {
      ClickPreservesReachable(sel, dates[0]);
      ClicksPreserveReachable(Click(sel, dates[0]), dates[1..]);
    }
  }

  /** Every selection reached by clicks alone is ordered and has weekday endpoints. */
  lemma ClicksFromEmpty(dates: seq<CalendarDate>)
    ensures ClickReachable(Clicks(Empty, dates))
  {
    ClicksPreserveReachable(Empty, dates);
  }

  /** Two weekday clicks from nothing select the range between them, in order. */
  lemma TwoClicks(first: CalendarDate, second: CalendarDate)
    requires !IsWeekend(first) && !IsWeekend(second)
    ensures Clicks(Empty, [first, second])
         == Selection(Some(Earlier(first, second)), Some(Later(first, second)))
  {
    var one := Click(Empty, first);
    assert one == Selection(Some(first), None);
    assert [first, second][1..] == [second];
    assert Clicks(Empty, [first, second]) == Clicks(one, [second]);
    assert [second][1..] == [];
    assert Clicks(one, [second]) == Click(one, second);
    ClickCompletes(first, second);
  }

  /** After a completed range, the next weekday click never extends it. */
  lemma ThirdClickRestarts(first: CalendarDate, second: CalendarDate, third: CalendarDate)
    requires !IsWeekend(first) && !IsWeekend(second) && !IsWeekend(third)
    ensures Clicks(Empty, [first, second, third]) == Selection(Some(third), None)
  {
    var one := Click(Empty, first);
    var two := Click(one, second);
    assert one == Selection(Some(first), None);
    ClickCompletes(first, second);
    assert [first, second, third][1..] == [second, third];
    assert Clicks(Empty, [first, second, third]) == Clicks(one, [second, third]);
    assert [second, third][1..] == [third];
    assert Clicks(one, [second, third]) == Clicks(two, [third]);
    assert [third][1..] == [];
    assert Clicks(two, [third]) == Click(two, third);
    ClickStartsAfresh(two, third);
  }
}
