/**
  `computeChangeHandler(start, end)`: when both ends are present, walk every day
  from `start` to `end` inclusive, collect the weekend days, and emit the
  formatted range together with the formatted weekend list.

  The `onChange` callback becomes the method's result: `None` means it was not
  called, `Some(event)` that it was called once with `event`.
*/
module RangeEmission {
  import opened Wrappers
  import opened Calendar
  import opened IsoFormat

  /** The arguments of one `onChange` call. */
  datatype ChangeEvent = ChangeEvent(range: (string, string), weekends: seq<string>)

  /** The day `k` days after `s`. */
  function Walk(s: CalendarDate, k: nat): CalendarDate {
    if k == 0 then s else NextDay(Walk(s, k - 1))
  }

  /** Walking `k` days moves the time value by exactly `k` days. */
  lemma {:induction false} WalkNumber(s: CalendarDate, k: nat)
    ensures DayNumber(Walk(s, k)) == DayNumber(s) + k
  {
    if k > 0 {
      WalkNumber(s, k - 1);
      NextDayNumber(Walk(s, k - 1));
    }
  }

  /** The weekend days among the `n` days starting at `s`, in the order they are met. */
  function WeekendsAmong(s: CalendarDate, n: nat): seq<CalendarDate> {
    if n == 0 then []
    else WeekendsAmong(s, n - 1) + (if IsWeekend(Walk(s, n - 1)) then [Walk(s, n - 1)] else [])
  }

  /** Number of days from `s` to `e` inclusive; 0 when `e` is before `s`. */
  function Span(s: CalendarDate, e: CalendarDate): nat {
    if DayNumber(e) < DayNumber(s) then 0 else DayNumber(e) - DayNumber(s) + 1
  }

  /** The weekend days `computeChangeHandler(s, e)` reports, as dates. */
  function WeekendDays(s: CalendarDate, e: CalendarDate): seq<CalendarDate> {
    WeekendsAmong(s, Span(s, e))
  }

  /** The event `computeChangeHandler(s, e)` emits. */
  function ChangeFor(s: CalendarDate, e: CalendarDate): ChangeEvent {
    ChangeEvent((Format(s), Format(e)), FormatAll(WeekendDays(s, e)))
  }

  method ComputeChangeHandler(start: Option<CalendarDate>, end: Option<CalendarDate>)
    returns (emitted: Option<ChangeEvent>)
    ensures emitted.Some? <==> start.Some? && end.Some?
    ensures emitted.Some? ==> emitted.value == ChangeFor(start.value, end.value)
  {
    if start.None? || end.None? {
      return None;
    }
    var s, e := start.value, end.value;
    var weekends: seq<string> := [];
    var current := s;
    ghost var n := Span(s, e);
    ghost var k: nat := 0;
    WalkReaches(s, e, 0);
    while !Before(e, current)
      invariant current == Walk(s, k)
      invariant k <= n
      invariant !Before(e, current) <==> k < n
      invariant weekends == FormatAll(WeekendsAmong(s, k))
      decreases n - k
    {
      EmissionStep(s, k, weekends);
      if IsWeekend(current) {
        weekends := weekends + [Format(current)];
      }
      current := NextDay(current);
      k := k + 1;
      WalkReaches(s, e, k);
    }
    emitted := Some(ChangeEvent((Format(s), Format(e)), weekends));
  }

  /** The walk from `s` is still at or before `e` exactly for the first `Span(s, e)` steps. */
  lemma WalkReaches(s: CalendarDate, e: CalendarDate, k: nat)
    ensures !Before(e, Walk(s, k)) <==> k < Span(s, e)
  {
    WalkNumber(s, k);
    DayNumberOrder(e, Walk(s, k));
  }

  lemma {:induction false} FormatAllAppend(a: seq<CalendarDate>, b: seq<CalendarDate>)
    ensures FormatAll(a + b) == FormatAll(a) + FormatAll(b)
  {
    if a == [] {
      assert a + b == b;
    } else {
      assert (a + b)[0] == a[0];
      assert (a + b)[1..] == a[1..] + b;
      FormatAllAppend(a[1..], b);
    }
  }

  /** One step of the walk extends the formatted weekend list by the day just visited, if any. */
  lemma EmissionStep(s: CalendarDate, k: nat, weekends: seq<string>)
    requires weekends == FormatAll(WeekendsAmong(s, k))
    ensures FormatAll(WeekendsAmong(s, k + 1))
         == if IsWeekend(Walk(s, k)) then weekends + [Format(Walk(s, k))] else weekends
  {
    FormatAllAppend(WeekendsAmong(s, k), if IsWeekend(Walk(s, k)) then [Walk(s, k)] else []);
  }

  lemma {:induction false} WeekendsAmongMembers(s: CalendarDate, n: nat, d: CalendarDate)
    ensures d in WeekendsAmong(s, n)
        <==> DayNumber(s) <= DayNumber(d) < DayNumber(s) + n && IsWeekend(d)
  {
    if n > 0 {
      var last := Walk(s, n - 1);
      var tail := if IsWeekend(last) then [last] else [];
      var dn, sn := DayNumber(d), DayNumber(s);
      assert d in WeekendsAmong(s, n) <==> d in WeekendsAmong(s, n - 1) || d in tail by {
        assert WeekendsAmong(s, n) == WeekendsAmong(s, n - 1) + tail;
      }
      assert d in tail <==> d == last && IsWeekend(d);
      assert d in WeekendsAmong(s, n - 1) <==> sn <= dn < sn + (n - 1) && IsWeekend(d) by {
        WeekendsAmongMembers(s, n - 1, d);
      }
      WalkNumber(s, n - 1);
      SameDayIffSameNumber(d, last, sn + n - 1);
    }
  }

  lemma SameDayIffSameNumber(d: CalendarDate, other: CalendarDate, k: int)
    requires DayNumber(other) == k
    ensures d == other <==> DayNumber(d) == k
  {
    DayNumberInjective(d, other);
  }

  lemma {:induction false} WeekendsAmongChronological(s: CalendarDate, n: nat)
    ensures forall i, j :: 0 <= i < j < |WeekendsAmong(s, n)|
              ==> Before(WeekendsAmong(s, n)[i], WeekendsAmong(s, n)[j])
  {
    if n > 0 {
      WeekendsAmongChronological(s, n - 1);
      var w := WeekendsAmong(s, n - 1);
      var last := Walk(s, n - 1);
      if IsWeekend(last) {
        WeekendsPrecedeWalk(s, n - 1);
        var w2 := w + [last];
        assert WeekendsAmong(s, n) == w2;
        forall i, j | 0 <= i < j < |w2|
          ensures Before(w2[i], w2[j])
        {
          assert w2[i] == w[i];
          if j < |w| {
            assert w2[j] == w[j];
          }
        }
      } else {
        assert WeekendsAmong(s, n) == w;
      }
    }
  }

  /** Every weekend met in the first `n` days precedes day `n` of the walk. */
  lemma WeekendsPrecedeWalk(s: CalendarDate, n: nat)
    ensures forall i :: 0 <= i < |WeekendsAmong(s, n)| ==> Before(WeekendsAmong(s, n)[i], Walk(s, n))
  {
    var w, last := WeekendsAmong(s, n), Walk(s, n);
    WalkNumber(s, n);
    forall i | 0 <= i < |w|
      ensures Before(w[i], last)
    {
      WeekendsAmongMembers(s, n, w[i]);
      DayNumberOrder(w[i], last);
    }
  }

  /** The reported weekends are exactly the weekend days from `s` to `e` inclusive. */
  lemma WeekendDaysExact(s: CalendarDate, e: CalendarDate, d: CalendarDate)
    ensures d in WeekendDays(s, e) <==> !Before(d, s) && !Before(e, d) && IsWeekend(d)
  {
    WeekendsAmongMembers(s, Span(s, e), d);
    DayNumberOrder(d, s);
    DayNumberOrder(e, d);
  }

  /** The reported weekends are strictly chronological, hence free of duplicates. */
  lemma WeekendDaysChronological(s: CalendarDate, e: CalendarDate)
    ensures forall i, j :: 0 <= i < j < |WeekendDays(s, e)|
              ==> Before(WeekendDays(s, e)[i], WeekendDays(s, e)[j])
  {
    WeekendsAmongChronological(s, Span(s, e));
  }

  /** The emitted weekend texts are pairwise distinct. */
  lemma EmittedWeekendsDistinct(s: CalendarDate, e: CalendarDate)
    ensures forall i, j :: 0 <= i < j < |ChangeFor(s, e).weekends|
              ==> ChangeFor(s, e).weekends[i] != ChangeFor(s, e).weekends[j]
  {
    var w := WeekendDays(s, e);
    WeekendDaysChronological(s, e);
    forall i, j | 0 <= i < j < |w|
      ensures Format(w[i]) != Format(w[j])
    {
      FormatInjective(w[i], w[j]);
    }
  }

  /** A range that ends before it starts encloses no weekend. */
  lemma ReversedRangeHasNoWeekends(s: CalendarDate, e: CalendarDate)
    requires Before(e, s)
    ensures ChangeFor(s, e).weekends == []
  {
    DayNumberOrder(e, s);
  }

  /** 2024-03-01 .. 2024-03-10: the weekends are the 2nd, 3rd, 9th and 10th. */
  lemma MarchTwentyTwentyFour(s: CalendarDate, e: CalendarDate)
    requires s == Date(2024, 2, 1) && e == Date(2024, 2, 10)
    ensures ChangeFor(s, e)
         == ChangeEvent(("2024-03-01", "2024-03-10"), ["2024-03-02", "2024-03-03", "2024-03-09", "2024-03-10"])
  {
    MarchTwentyTwentyFourWeekends();
    MarchTwentyTwentyFourEndsText();
    MarchTwentyTwentyFourWeekendsText();
  }

  lemma MarchTwentyTwentyFourWeekends()
    ensures WeekendDays(Date(2024, 2, 1), Date(2024, 2, 10))
         == [Date(2024, 2, 2), Date(2024, 2, 3), Date(2024, 2, 9), Date(2024, 2, 10)]
  {
    var s := Date(2024, 2, 1);
    assert Weekday(s) == 5;
    assert Span(s, Date(2024, 2, 10)) == 10;
    FridayTenDays(s);
    WalkWithinMonth(s, 1);
    WalkWithinMonth(s, 2);
    WalkWithinMonth(s, 8);
    WalkWithinMonth(s, 9);
  }

  /** Ten days from a Friday hold two weekends: days 1, 2, 8 and 9 of the walk. */
  lemma FridayTenDays(s: CalendarDate)
    requires Weekday(s) == 5
    ensures WeekendsAmong(s, 10) == [Walk(s, 1), Walk(s, 2), Walk(s, 8), Walk(s, 9)]
  {
    forall k: nat | k < 10
      ensures Weekday(Walk(s, k)) == (5 + k) % 7
    {
      WalkWeekday(s, k);
    }
    assert WeekendsAmong(s, 1) == [];
    assert WeekendsAmong(s, 3) == [Walk(s, 1), Walk(s, 2)];
    assert WeekendsAmong(s, 8) == [Walk(s, 1), Walk(s, 2)] by {
      assert WeekendsAmong(s, 4) == [Walk(s, 1), Walk(s, 2)];
      assert WeekendsAmong(s, 5) == [Walk(s, 1), Walk(s, 2)];
      assert WeekendsAmong(s, 6) == [Walk(s, 1), Walk(s, 2)];
      assert WeekendsAmong(s, 7) == [Walk(s, 1), Walk(s, 2)];
    }
    assert WeekendsAmong(s, 9) == [Walk(s, 1), Walk(s, 2), Walk(s, 8)];
  }

  /** How many of the `n` weekdays `w`, `w + 1`, ... (mod 7) are Saturday or Sunday. */
  function WeekendCount(w: int, n: nat): nat {
    if n == 0 then 0
    else WeekendCount(w, n - 1) + (if (w + n - 1) % 7 == 0 || (w + n - 1) % 7 == 6 then 1 else 0)
  }

  lemma {:induction false} WeekendsAmongCount(s: CalendarDate, n: nat)
    ensures |WeekendsAmong(s, n)| == WeekendCount(Weekday(s), n)
  {
    if n > 0 {
      var last := Walk(s, n - 1);
      WeekendsAmongCount(s, n - 1);
      WalkWeekday(s, n - 1);
      CountStep(|WeekendsAmong(s, n)|, |WeekendsAmong(s, n - 1)|, Weekday(s), n, IsWeekend(last), Weekday(last));
    }
  }

  /** One more day adds one to the count exactly when its weekday is Saturday or Sunday. */
  lemma CountStep(len: nat, prev: nat, w: int, n: nat, weekend: bool, day: int)
    requires n > 0 && prev == WeekendCount(w, n - 1)
    requires len == prev + (if weekend then 1 else 0)
    requires day == (w + n - 1) % 7 && (weekend <==> day == 0 || day == 6)
    ensures len == WeekendCount(w, n)
  {
  }

  lemma WeekCount(w: int)
    requires 0 <= w < 7
    ensures WeekendCount(w, 7) == 2
  {
    if w == 0 { assert WeekendCount(0, 7) == 2; }
    else if w == 1 { assert WeekendCount(1, 7) == 2; }
    else if w == 2 { assert WeekendCount(2, 7) == 2; }
    else if w == 3 { assert WeekendCount(3, 7) == 2; }
    else if w == 4 { assert WeekendCount(4, 7) == 2; }
    else if w == 5 { assert WeekendCount(5, 7) == 2; }
    else { assert WeekendCount(6, 7) == 2; }
  }

  /** Any seven consecutive days hold exactly two weekend days. */
  lemma WeekendsPerWeek(s: CalendarDate)
    ensures |WeekendsAmong(s, 7)| == 2
  {
    WeekendsAmongCount(s, 7);
    WeekCount(Weekday(s));
  }

  /** Walking `k` days advances the weekday by `k`, modulo 7. */
  lemma WalkWeekday(s: CalendarDate, k: nat)
    ensures Weekday(Walk(s, k)) == (Weekday(s) + k) % 7
  {
    WalkNumber(s, k);
    ModAdd(DayNumber(s) + 6, k);
  }

  lemma ModAdd(x: int, k: int)
    ensures (x + k) % 7 == (x % 7 + k) % 7
  {
  }

  /** Walking `k` days from the 1st stays in the month while the month lasts. */
  lemma {:induction false} WalkWithinMonth(s: CalendarDate, k: nat)
    requires s.day == 1 && k < DaysInMonth(s.year, s.month)
    ensures Walk(s, k) == Date(s.year, s.month, k + 1)
  {
    if k > 0 {
      WalkWithinMonth(s, k - 1);
    }
  }
}
