/**
 * What the engine does to the series of the unit tests: how many events a view shows, what
 * one day shows after deleting or changing an occurrence, and what a February 29th yearly
 * series gives. Each case is stated in general first, then for the test's own dates.
 */
module Scenarios {
  import opened Wrappers
  import opened Calendar
  import opened Events
  import opened Recurrence
  import opened Views
  import opened Detach

  function Series(id: string, date: Date, kind: RepeatKind, end: Date): Event {
    Event(id, "standup", date, "09:00", "09:15", "", "", "", RepeatInfo(kind, 1, Some(end), []), 0)
  }

  /** 2025-08-25 was a Monday. */
  lemma MondayAugust25()
    ensures DayOfWeek(Date(2025, 8, 25)) == 1
  {
  }

  /** January 31st plus one month rolls over into March: `setMonth` keeps the day count. */
  lemma JanuaryPlusOneMonth()
    ensures Candidate(Date(2025, 1, 31), Monthly, 1) == Date(2025, 3, 3)
  {
    assert Shifted(Date(2025, 1, 31), Monthly, 1) == Fields(2025, 1, 31);
    assert Forward(2025, 2, 31) == Forward(2025, 3, 3);
  }

  // ---------------------------------------------------------------------------------------
  // Steps of an expansion

  /** An accepted candidate within the end date is emitted. */
  lemma StepIn(base: Event, end: Date, k: nat, d: Date)
    requires IsCalendarDate(base.date) && base.repeat.kind != NoRepeat
    requires Candidate(base.date, base.repeat.kind, k) == d && Accepted(base, d)
    requires DayNumber(d) <= DayNumber(end)
    ensures Occurrences(base, end, k) == [d] + Occurrences(base, end, k + 1)
  {
    OccurrencesStep(base, end, k);
  }

  /** A rejected candidate within the end date is skipped. */
  lemma StepSkip(base: Event, end: Date, k: nat, d: Date)
    requires IsCalendarDate(base.date) && base.repeat.kind != NoRepeat
    requires Candidate(base.date, base.repeat.kind, k) == d && !Accepted(base, d)
    requires DayNumber(d) <= DayNumber(end)
    ensures Occurrences(base, end, k) == Occurrences(base, end, k + 1)
  {
    OccurrencesStep(base, end, k);
  }

  /** The first candidate past the end date stops the expansion. */
  lemma StepOut(base: Event, end: Date, k: nat, d: Date)
    requires IsCalendarDate(base.date) && base.repeat.kind != NoRepeat
    requires Candidate(base.date, base.repeat.kind, k) == d && DayNumber(d) > DayNumber(end)
    ensures Occurrences(base, end, k) == []
  {
  }

  // ---------------------------------------------------------------------------------------
  // Views of one series

  /** A view covering a series' whole span shows the series followed by all its
      occurrences. */
  lemma WholeSeriesView(series: Event, start: Date, end: Date)
    requires WellFormed(series) && series.repeat.kind != NoRepeat && series.repeat.endDate.Some?
    requires series.date !in series.repeat.exceptions
    requires DayNumber(start) <= DayNumber(series.date) <= DayNumber(end)
    requires DayNumber(series.repeat.endDate.value) <= DayNumber(end)
    ensures View([series], start, end) == [series] + Expansion(series)
  {
    var xs := Expansion(series);
    OccurrenceDatesBounded(series);
    forall x | x in xs ensures InRange(x.date, start, end) {
      var i :| 0 <= i < |xs| && xs[i] == x;
    }
    InRangeOnlyAll(xs, start, end);
    ViewSingleton(series, start, end);
  }

  lemma {:induction false} InRangeOnlyAll(es: seq<Event>, start: Date, end: Date)
    requires forall x :: x in es ==> InRange(x.date, start, end)
    ensures InRangeOnly(es, start, end) == es
  {
    if es != [] {
      assert es[0] in es;
      forall x | x in es[1..] ensures InRange(x.date, start, end) {
        assert x in es;
      }
      InRangeOnlyAll(es[1..], start, end);
    }
  }

  /** The view of one day other than the series' own date shows one event per occurrence
      on that day. */
  lemma OneDayView(series: Event, d: Date)
    requires WellFormed(series) && IsCalendarDate(d) && DayNumber(series.date) != DayNumber(d)
    ensures |View([series], d, d)| == multiset(OccurrenceDates(series))[d]
  {
    ViewSingleton(series, d, d);
    if series.repeat.kind != NoRepeat {
      InstancesOneDay(series, OccurrenceDates(series), d);
    }
  }

  lemma {:induction false} InstancesOneDay(series: Event, ds: seq<Date>, d: Date)
    requires forall x :: x in ds ==> IsCalendarDate(x)
    requires IsCalendarDate(d)
    ensures |InRangeOnly(Instances(series, ds), d, d)| == multiset(ds)[d]
  {
    if ds != [] {
      InstancesOneDayStep(series, ds, d);
      MultisetHead(ds, d);
      InstancesOneDay(series, ds[1..], d);
    }
  }

  lemma InstancesOneDayStep(series: Event, ds: seq<Date>, d: Date)
    requires ds != [] && forall x :: x in ds ==> IsCalendarDate(x)
    requires IsCalendarDate(d)
    ensures |InRangeOnly(Instances(series, ds), d, d)|
         == (if ds[0] == d then 1 else 0) + |InRangeOnly(Instances(series, ds[1..]), d, d)|
  {
    var head := Instance(series, ds[0]);
    var tail := Instances(series, ds[1..]);
    assert Instances(series, ds) == [head] + tail;
    assert ([head] + tail)[1..] == tail;
    SameDay(ds[0], d);
  }

  lemma MultisetHead(ds: seq<Date>, d: Date)
    requires ds != []
    ensures multiset(ds)[d] == (if ds[0] == d then 1 else 0) + multiset(ds[1..])[d]
  {
    assert ds == [ds[0]] + ds[1..];
  }

  /** For real dates, the one-day range of `d` holds `d` alone. */
  lemma SameDay(x: Date, d: Date)
    requires IsCalendarDate(x) && IsCalendarDate(d)
    ensures InRange(x, d, d) <==> x == d
  {
    if InRange(x, d, d) {
      DayNumberInjective(x, d);
    }
  }

  /** A date of a strictly ascending list occurs in it once. */
  lemma {:induction false} AscendingOnce(ds: seq<Date>, d: Date)
    requires Ascending(ds) && d in ds
    ensures multiset(ds)[d] == 1
  {
    assert ds == [ds[0]] + ds[1..];
    assert Ascending(ds[1..]) by {
      forall i, j | 0 <= i < j < |ds[1..]|
        ensures DayNumber(ds[1..][i]) < DayNumber(ds[1..][j])
      {
        assert ds[1..][i] == ds[i + 1] && ds[1..][j] == ds[j + 1];
      }
    }
    if ds[0] == d {
      forall i | 0 <= i < |ds[1..]| ensures ds[1..][i] != d {
        assert ds[1..][i] == ds[i + 1];
      }
      assert d !in ds[1..];
    } else {
      AscendingOnce(ds[1..], d);
    }
  }

  // ---------------------------------------------------------------------------------------
  // Daily

  /** From step `k` on, a daily series without exceptions emits one date per day up to the
      end date. */
  lemma {:induction false} DailyCount(base: Event, end: Date, k: nat)
    requires IsCalendarDate(base.date) && base.repeat.kind == Daily && base.repeat.exceptions == []
    requires DayNumber(base.date) + k <= DayNumber(end) + 1
    ensures |Occurrences(base, end, k)| == DayNumber(end) - DayNumber(base.date) - k + 1
    decreases DayNumber(end) - DayNumber(base.date) - k + 1
  {
    var next := Candidate(base.date, Daily, k);
    DailyWeeklyCandidate(base.date, Daily, k);
    if DayNumber(base.date) + k <= DayNumber(end) {
      assert Accepted(base, next);
      StepIn(base, end, k, next);
      DailyCount(base, end, k + 1);
    }
  }

  /** A view from a daily series' own date to its end date shows one event per day, each
      a copy of the series. */
  lemma DailyView(base: Event)
    requires WellFormed(base) && base.repeat.kind == Daily && base.repeat.exceptions == []
    requires base.repeat.endDate.Some? && DayNumber(base.date) <= DayNumber(base.repeat.endDate.value)
    ensures var end := base.repeat.endDate.value;
      var v := View([base], base.date, end);
      && |v| == DayNumber(end) - DayNumber(base.date) + 1
      && forall x :: x in v ==> x.title == base.title && x.startTime == base.startTime
  {
    var end := base.repeat.endDate.value;
    DailyCount(base, end, 1);
    WholeSeriesView(base, base.date, end);
    ExpansionCopiesSeries(base);
    var v := View([base], base.date, end);
    forall x | x in v ensures x.title == base.title && x.startTime == base.startTime {
      if x != base {
        var i :| 0 <= i < |Expansion(base)| && Expansion(base)[i] == x;
      }
    }
  }

  /** The daily series from 2025-08-25 to 2025-08-30 shows six events. */
  lemma DailyStandupView(end: Date)
    requires end == Date(2025, 8, 30)
    ensures |View([Series("1", Date(2025, 8, 25), Daily, end)], Date(2025, 8, 25), end)| == 6
  {
    DailyView(Series("1", Date(2025, 8, 25), Daily, end));
  }

  /** The exception added for `d` removes `d` from the occurrence dates. */
  lemma ExceptionDateGone(base: Event, d: Date)
    requires WellFormed(base)
    ensures WellFormed(WithException(base, d))
    ensures d !in OccurrenceDates(WithException(base, d))
  {
    ExpansionWithException(base, d);
  }

  /** Deleting the occurrence on `d` from a one-series list leaves that series with `d`
      among its exceptions. */
  lemma DeleteFromSingleton(base: Event, d: Date)
    ensures DeleteSingle([base], base.id, d) == [WithException(base, d)]
  {
    assert FindIndex([base], base.id) == Some(0);
  }

  /** After deleting the occurrence on `d`, the view of `d` is empty. */
  lemma DeletedDayEmpty(base: Event, d: Date)
    requires WellFormed(base) && IsCalendarDate(d) && DayNumber(base.date) != DayNumber(d)
    ensures View(DeleteSingle([base], base.id, d), d, d) == []
  {
    DeleteFromSingleton(base, d);
    ExceptionDateGone(base, d);
    OneDayView(WithException(base, d), d);
  }

  /** After deleting the occurrence on `d` of a daily or weekly series, any other day the
      series covers still shows its one event. */
  lemma OtherDayKept(base: Event, d: Date, e: Date)
    requires WellFormed(base) && (base.repeat.kind == Daily || base.repeat.kind == Weekly)
    requires base.repeat.endDate.Some?
    requires IsCalendarDate(e) && e != d && e !in base.repeat.exceptions
    requires DayNumber(base.date) < DayNumber(e) <= DayNumber(base.repeat.endDate.value)
    requires base.repeat.kind == Weekly ==> (DayNumber(e) - DayNumber(base.date)) % 7 == 0
    ensures |View(DeleteSingle([base], base.id, d), e, e)| == 1
  {
    var series := WithException(base, d);
    DeleteFromSingleton(base, d);
    ExceptionDateGone(base, d);
    StillCovered(base, d, e);
    OccurrenceDatesAscending(series);
    AscendingOnce(OccurrenceDates(series), e);
    OneDayView(series, e);
  }

  lemma StillCovered(base: Event, d: Date, e: Date)
    requires WellFormed(base) && (base.repeat.kind == Daily || base.repeat.kind == Weekly)
    requires base.repeat.endDate.Some?
    requires IsCalendarDate(e) && e != d && e !in base.repeat.exceptions
    requires DayNumber(base.date) < DayNumber(e) <= DayNumber(base.repeat.endDate.value)
    requires base.repeat.kind == Weekly ==> (DayNumber(e) - DayNumber(base.date)) % 7 == 0
    ensures e in OccurrenceDates(WithException(base, d))
  {
    var series := WithException(base, d);
    assert e !in series.repeat.exceptions;
    DailyWeeklyCoverage(series, e);
  }

  /** Deleting 2025-08-27 from the daily series empties that day and keeps 2025-08-28. */
  lemma DailyStandupDelete(end: Date)
    requires end == Date(2025, 8, 30)
    ensures var events := DeleteSingle([Series("1", Date(2025, 8, 25), Daily, end)], "1", Date(2025, 8, 27));
      && View(events, Date(2025, 8, 27), Date(2025, 8, 27)) == []
      && |View(events, Date(2025, 8, 28), Date(2025, 8, 28))| == 1
  {
    var base := Series("1", Date(2025, 8, 25), Daily, end);
    DeletedDayEmpty(base, Date(2025, 8, 27));
    OtherDayKept(base, Date(2025, 8, 27), Date(2025, 8, 28));
  }

  // ---------------------------------------------------------------------------------------
  // Weekly from Monday 2025-08-25

  /** Week `k` after 2025-08-25, for the three weeks that follow. */
  lemma WeekAfterAugust25(k: int, d: Date)
    requires 1 <= k <= 3 && d == [Date(2025, 9, 1), Date(2025, 9, 8), Date(2025, 9, 15)][k - 1]
    ensures Candidate(Date(2025, 8, 25), Weekly, k) == d
  {
    DailyWeeklyCandidate(Date(2025, 8, 25), Weekly, k);
    CandidateIsDate(Date(2025, 8, 25), Weekly, k);
    assert DayNumber(d) == DayNumber(Date(2025, 8, 25)) + 7 * k;
    DayNumberInjective(Candidate(Date(2025, 8, 25), Weekly, k), d);
  }

  /** Ending anywhere from 2025-09-08 to 2025-09-14, the series repeats on the two following
      Mondays only: with the end date 2025-09-10 it gives exactly 2025-09-01 and
      2025-09-08. */
  lemma WeeklyDates(end: Date)
    requires IsCalendarDate(end)
    requires DayNumber(Date(2025, 9, 8)) <= DayNumber(end) < DayNumber(Date(2025, 9, 15))
    ensures OccurrenceDates(Series("2", Date(2025, 8, 25), Weekly, end)) == [Date(2025, 9, 1), Date(2025, 9, 8)]
  {
    var base := Series("2", Date(2025, 8, 25), Weekly, end);
    WeekAfterAugust25(1, Date(2025, 9, 1));
    WeekAfterAugust25(2, Date(2025, 9, 8));
    WeekAfterAugust25(3, Date(2025, 9, 15));
    StepOut(base, end, 3, Date(2025, 9, 15));
    StepIn(base, end, 2, Date(2025, 9, 8));
    StepIn(base, end, 1, Date(2025, 9, 1));
  }

  /** Ending on 2025-09-08, viewing 2025-08-25 to 2025-09-08 shows the series and its two
      occurrences, in date order. */
  lemma WeeklyView(end: Date)
    requires end == Date(2025, 9, 8)
    ensures var base := Series("2", Date(2025, 8, 25), Weekly, end);
      View([base], Date(2025, 8, 25), end) == [base, Instance(base, Date(2025, 9, 1)), Instance(base, end)]
  {
    var base := Series("2", Date(2025, 8, 25), Weekly, end);
    WeeklyDates(end);
    TwoInstances(base, Date(2025, 9, 1), end);
    WholeSeriesView(base, Date(2025, 8, 25), end);
  }

  lemma TwoInstances(base: Event, a: Date, b: Date)
    requires WellFormed(base) && OccurrenceDates(base) == [a, b]
    ensures Expansion(base) == [Instance(base, a), Instance(base, b)]
  {
  }

  /** Changing the occurrence on `d` of a series leaves a standalone, non-repeating event
      carrying the change, and that event alone shows on `d`. */
  lemma UpdateOneDay(base: Event, d: Date, p: Patch, now: nat)
    requires WellFormed(base) && d in OccurrenceDates(base)
    ensures var r := UpdateSingle([base], base.id, d, p, now);
      && r.1.Some?
      && r.1.value.title == p.title.GetOr(base.title)
      && r.1.value.repeat.kind == NoRepeat
      && Keys(View(r.0, d, d)) == [(r.1.value.id, d)]
  {
    OccurrenceAfterAnchor(base, d);
    DeletedDayEmpty(base, d);
    UpdateSingleView([base], base.id, d, p, now, d, d);
  }

  lemma OccurrenceAfterAnchor(base: Event, d: Date)
    requires WellFormed(base) && d in OccurrenceDates(base)
    ensures IsCalendarDate(d) && DayNumber(base.date) < DayNumber(d)
  {
    OccurrenceDatesBounded(base);
    var i :| 0 <= i < |OccurrenceDates(base)| && OccurrenceDates(base)[i] == d;
  }

  /** Changing the title of the 2025-09-01 occurrence of the weekly series: that day shows
      only the standalone event. */
  lemma WeeklyReportUpdate(end: Date, p: Patch, now: nat)
    requires end == Date(2025, 9, 8)
    ensures var r := UpdateSingle([Series("2", Date(2025, 8, 25), Weekly, end)], "2", Date(2025, 9, 1), p, now);
      && r.1.Some? && r.1.value.repeat.kind == NoRepeat
      && Keys(View(r.0, Date(2025, 9, 1), Date(2025, 9, 1))) == [(r.1.value.id, Date(2025, 9, 1))]
  {
    WeeklyDates(end);
    UpdateOneDay(Series("2", Date(2025, 8, 25), Weekly, end), Date(2025, 9, 1), p, now);
  }

  // ---------------------------------------------------------------------------------------
  // Yearly from February 29th

  /** The yearly candidates of a February 29th anchor in leap year `y`: `setFullYear` rolls
      over to March 1st in the three years that follow and in the fifth. */
  lemma LeapCandidate(y: int, k: int)
    requires IsLeapYear(y) && IsLeapYear(y + 4) && 1 <= k <= 5
    ensures Candidate(Date(y, 2, 29), Yearly, k) == if k == 4 then Date(y + 4, 2, 29) else Date(y + k, 3, 1)
  {
    if k == 4 {
      YearlyCandidate(Date(y, 2, 29), k);
    } else {
      FebruaryRollover(y, k);
    }
  }

  lemma FebruaryRollover(y: int, k: int)
    requires !IsLeapYear(y + k)
    ensures Candidate(Date(y, 2, 29), Yearly, k) == Date(y + k, 3, 1)
  {
    var anchor := Date(y, 2, 29);
    assert Shifted(anchor, Yearly, k) == Fields(y + k, 1, 29);
    MakeDateSpec(Fields(y + k, 1, 29));
    MonthStep(y + k, 2);
    DayNumberInjective(Candidate(anchor, Yearly, k), Date(y + k, 3, 1));
  }

  /** A yearly series from February 29th ending within the year after the next leap day
      occurs once, on that leap day. */
  lemma LeapOnce(base: Event, y: int)
    requires IsLeapYear(y) && IsLeapYear(y + 4)
    requires base.date == Date(y, 2, 29) && base.repeat.kind == Yearly && base.repeat.exceptions == []
    requires base.repeat.endDate.Some? && IsCalendarDate(base.repeat.endDate.value)
    requires DayNumber(Date(y + 4, 2, 29)) <= DayNumber(base.repeat.endDate.value) < DayNumber(Date(y + 5, 3, 1))
    ensures OccurrenceDates(base) == [Date(y + 4, 2, 29)]
  {
    var end := base.repeat.endDate.value;
    LeapSkip(base, y, 1);
    LeapSkip(base, y, 2);
    LeapSkip(base, y, 3);
    LeapCandidate(y, 4);
    LeapCandidate(y, 5);
    StepOut(base, end, 5, Date(y + 5, 3, 1));
    StepIn(base, end, 4, Date(y + 4, 2, 29));
  }

  /** The three years after a February 29th anchor are skipped. */
  lemma LeapSkip(base: Event, y: int, k: int)
    requires IsLeapYear(y) && IsLeapYear(y + 4) && 1 <= k <= 3
    requires base.date == Date(y, 2, 29) && base.repeat.kind == Yearly
    requires base.repeat.endDate.Some?
    requires DayNumber(Date(y + 4, 2, 29)) <= DayNumber(base.repeat.endDate.value)
    ensures Occurrences(base, base.repeat.endDate.value, k) == Occurrences(base, base.repeat.endDate.value, k + 1)
  {
    LeapCandidate(y, k);
    LeapBefore(y, k);
    StepSkip(base, base.repeat.endDate.value, k, Date(y + k, 3, 1));
  }

  lemma LeapBefore(y: int, k: int)
    requires IsLeapYear(y + 4) && 1 <= k <= 3
    ensures DayNumber(Date(y + k, 3, 1)) < DayNumber(Date(y + 4, 2, 29))
  {
    DayNumberOrder(Date(y + k, 3, 1), Date(y + 4, 2, 29));
  }

  /** The series from 2024-02-29 to 2028-12-31, viewed from 2025-01-01, shows only
      2028-02-29. */
  lemma LeapDayView(end: Date)
    requires end == Date(2028, 12, 31)
    ensures View([Series("4-leap", Date(2024, 2, 29), Yearly, end)], Date(2025, 1, 1), end)
         == [Instance(Series("4-leap", Date(2024, 2, 29), Yearly, end), Date(2028, 2, 29))]
  {
    var base := Series("4-leap", Date(2024, 2, 29), Yearly, end);
    LeapOnce(base, 2024);
    ViewSingleton(base, Date(2025, 1, 1), end);
  }

  /** An end date before the start gives no occurrences. */
  lemma EndBeforeStart()
    ensures Expansion(Series("1", Date(2025, 8, 25), Daily, Date(2025, 8, 24))) == []
  {
  }
}
