/**
 * `generateRecurringEvents`: expands one series into its virtual occurrences. Step k tries
 * the anchor date plus k days, k weeks, k months or k years (never `interval` units: the
 * stride is always one), stops at the first candidate after the end date, and skips
 * monthly/yearly candidates that rolled over to another day of month, and exception dates.
 */
module Recurrence {
  import opened Wrappers
  import opened Calendar
  import opened Events

  /** Step `k` applied to a copy of the anchor, as the arguments of the equivalent
      `new Date(year, monthIndex, day)`: `setDate(getDate() + k)` (daily),
      `setDate(getDate() + 7 * k)` (weekly), `setMonth(getMonth() + k)` (monthly) or
      `setFullYear(getFullYear() + k)` (yearly). */
  function Shifted(anchor: Date, kind: RepeatKind, k: int): Fields {
    var f := FieldsOf(anchor);
    match kind
    case Daily => f.(day := anchor.day + k)
    case Weekly => f.(day := anchor.day + 7 * k)
    case Monthly => f.(monthIndex := anchor.month - 1 + k)
    case Yearly => f.(year := anchor.year + k)
    case NoRepeat => f
  }

  /** The date tried at step `k`, with the rollover of `new Date`. */
  function Candidate(anchor: Date, kind: RepeatKind, k: int): Date {
    MakeDate(Shifted(anchor, kind, k))
  }

  /** A candidate is emitted unless it rolled over (monthly, yearly) or is an exception. */
  predicate Accepted(base: Event, d: Date) {
    !((base.repeat.kind == Monthly || base.repeat.kind == Yearly) && d.day != base.date.day)
    && d !in base.repeat.exceptions
  }

  /** Step 0 is the anchor itself. */
  lemma CandidateZero(anchor: Date, kind: RepeatKind)
    requires IsCalendarDate(anchor)
    ensures Candidate(anchor, kind, 0) == anchor
  {
    assert Shifted(anchor, kind, 0) == FieldsOf(anchor);
    MakeDateOfDate(anchor);
  }

  /** Every candidate is a real date. */
  lemma CandidateIsDate(anchor: Date, kind: RepeatKind, k: int)
    ensures IsCalendarDate(Candidate(anchor, kind, k))
  {
    MakeDateSpec(Shifted(anchor, kind, k));
  }

  /** A daily candidate is `k` days after the anchor, a weekly one `k` weeks. */
  lemma DailyWeeklyCandidate(anchor: Date, kind: RepeatKind, k: int)
    requires IsCalendarDate(anchor) && (kind == Daily || kind == Weekly)
    ensures DayNumber(Candidate(anchor, kind, k)) == DayNumber(anchor) + (if kind == Daily then k else 7 * k)
  {
    var n := if kind == Daily then k else 7 * k;
    assert Shifted(anchor, kind, k) == FieldsOf(anchor).(day := anchor.day + n);
    MakeDateOfDate(anchor);
    MakeDateAddDays(FieldsOf(anchor), n);
  }

  /** Every step moves the candidate at least one day later: the loop's termination argument. */
  lemma CandidateAdvances(anchor: Date, kind: RepeatKind, k: int)
    requires IsCalendarDate(anchor) && kind != NoRepeat
    ensures DayNumber(Candidate(anchor, kind, k)) < DayNumber(Candidate(anchor, kind, k + 1))
  {
    var f := Shifted(anchor, kind, k);
    match kind
    case Daily =>
      assert Shifted(anchor, kind, k + 1) == f.(day := f.day + 1);
      MakeDateAddDays(f, 1);
    case Weekly =>
      assert Shifted(anchor, kind, k + 1) == f.(day := f.day + 7);
      MakeDateAddDays(f, 7);
    case Monthly =>
      assert Shifted(anchor, kind, k + 1) == f.(monthIndex := f.monthIndex + 1);
      MakeDateNextMonth(f);
    case Yearly =>
      assert Shifted(anchor, kind, k + 1) == f.(year := f.year + 1);
      MakeDateNextYear(f);
  }

  lemma FirstCandidateAfterAnchor(anchor: Date, kind: RepeatKind)
    requires IsCalendarDate(anchor) && kind != NoRepeat
    ensures DayNumber(anchor) < DayNumber(Candidate(anchor, kind, 1))
  {
    CandidateZero(anchor, kind);
    CandidateAdvances(anchor, kind, 0);
  }

  lemma {:induction false} CandidateMonotone(anchor: Date, kind: RepeatKind, i: int, j: int)
    requires IsCalendarDate(anchor) && kind != NoRepeat && i < j
    ensures DayNumber(Candidate(anchor, kind, i)) < DayNumber(Candidate(anchor, kind, j))
    decreases j - i
  {
    CandidateAdvances(anchor, kind, i);
    if i + 1 < j {
      CandidateMonotone(anchor, kind, i + 1, j);
    }
  }

  /** The dates emitted from step `k` on, up to the first candidate after `end`. */
  function Occurrences(base: Event, end: Date, k: nat): (ds: seq<Date>)
    requires IsCalendarDate(base.date) && base.repeat.kind != NoRepeat
    ensures forall d :: d in ds ==> IsCalendarDate(d)
    decreases DayNumber(end) - DayNumber(Candidate(base.date, base.repeat.kind, k))
  {
    var next := Candidate(base.date, base.repeat.kind, k);
    if DayNumber(next) > DayNumber(end) then []
    else
      CandidateAdvances(base.date, base.repeat.kind, k);
      CandidateIsDate(base.date, base.repeat.kind, k);
      (if Accepted(base, next) then [next] else []) + Occurrences(base, end, k + 1)
  }

  /** The dates of all virtual occurrences of `base`, in the order the source emits them. */
  function OccurrenceDates(base: Event): (ds: seq<Date>)
    requires WellFormed(base)
    ensures forall d :: d in ds ==> IsCalendarDate(d)
  {
    if base.repeat.kind == NoRepeat || base.repeat.endDate.None? then []
    else if DayNumber(base.repeat.endDate.value) < DayNumber(base.date) then []
    else Occurrences(base, base.repeat.endDate.value, 1)
  }

  /** `base` moved to each of the dates `ds`, under the matching virtual ids. */
  function Instances(base: Event, ds: seq<Date>): (r: seq<Event>)
    requires forall d :: d in ds ==> IsCalendarDate(d)
    ensures |r| == |ds| && forall i :: 0 <= i < |ds| ==> r[i] == Instance(base, ds[i])
  {
    if ds == [] then [] else [Instance(base, ds[0])] + Instances(base, ds[1..])
  }

  /** All virtual occurrences of `base`. */
  function Expansion(base: Event): seq<Event>
    requires WellFormed(base)
  {
    Instances(base, OccurrenceDates(base))
  }

  /** `d` is the accepted candidate of some step k >= 1 that does not pass the end date. */
  ghost predicate IsOccurrence(base: Event, d: Date)
    requires IsCalendarDate(base.date)
  {
    && base.repeat.kind != NoRepeat
    && base.repeat.endDate.Some?
    && DayNumber(d) <= DayNumber(base.repeat.endDate.value)
    && Accepted(base, d)
    && exists k: nat :: 1 <= k && Candidate(base.date, base.repeat.kind, k) == d
  }

  method GenerateRecurringEvents(base: Event) returns (instances: seq<Event>)
    requires WellFormed(base)
    ensures instances == Expansion(base)
    ensures base.repeat.kind == NoRepeat || base.repeat.endDate.None? ==> instances == []
    ensures base.repeat.endDate.Some? && DayNumber(base.repeat.endDate.value) < DayNumber(base.date)
            ==> instances == []
  {
    if base.repeat.kind == NoRepeat || base.repeat.endDate.None? {
      return [];
    }
    var kind := base.repeat.kind;
    var endDate := base.repeat.endDate.value;
    var exceptions := base.repeat.exceptions;
    var originalDayOfMonth := base.date.day;
    if DayNumber(endDate) < DayNumber(base.date) {
      return [];
    }
    instances := [];
    ghost var dates: seq<Date> := [];
    var loopCounter: nat := 1;
    while true
      invariant dates + Occurrences(base, endDate, loopCounter) == Occurrences(base, endDate, 1)
      invariant forall d :: d in dates ==> IsCalendarDate(d)
      invariant instances == Instances(base, dates)
      decreases DayNumber(endDate) - DayNumber(Candidate(base.date, kind, loopCounter))
    {
      var nextDate := Candidate(base.date, kind, loopCounter);
      if DayNumber(nextDate) > DayNumber(endDate) {
        break;
      }
      OccurrencesStep(base, endDate, loopCounter);
      ghost var rest := Occurrences(base, endDate, loopCounter + 1);
      if Accepted(base, nextDate) {
        assert Occurrences(base, endDate, loopCounter) == [nextDate] + rest;
      } else {
        assert Occurrences(base, endDate, loopCounter) == rest;
      }
      loopCounter := loopCounter + 1;
      if (kind == Monthly || kind == Yearly) && nextDate.day != originalDayOfMonth {
        continue;
      }
      if nextDate in exceptions {
        continue;
      }
      AppendAssociative(dates, [nextDate], rest);
      InstancesSnoc(base, dates, nextDate);
      instances := instances + [Instance(base, nextDate)];
      dates := dates + [nextDate];
    }
  }

  lemma AppendAssociative(a: seq<Date>, b: seq<Date>, c: seq<Date>)
    ensures a + b + c == a + (b + c)
  {
  }

  lemma InstancesSnoc(base: Event, ds: seq<Date>, d: Date)
    requires forall d :: d in ds ==> IsCalendarDate(d)
    requires IsCalendarDate(d)
    ensures Instances(base, ds + [d]) == Instances(base, ds) + [Instance(base, d)]
  {
  }

  // ---------------------------------------------------------------------------------------
  // What the expansion contains

  /** One unfolding of `Occurrences` below the end date. */
  lemma OccurrencesStep(base: Event, end: Date, k0: nat)
    requires IsCalendarDate(base.date) && base.repeat.kind != NoRepeat
    requires DayNumber(Candidate(base.date, base.repeat.kind, k0)) <= DayNumber(end)
    ensures var next := Candidate(base.date, base.repeat.kind, k0);
      && DayNumber(next) < DayNumber(Candidate(base.date, base.repeat.kind, k0 + 1))
      && Occurrences(base, end, k0)
         == (if Accepted(base, next) then [next] else []) + Occurrences(base, end, k0 + 1)
  {
    CandidateAdvances(base.date, base.repeat.kind, k0);
  }

  /** Every emitted date is accepted and lies between the step-`k0` candidate and `end`. */
  lemma {:induction false} OccurrencesBounds(base: Event, end: Date, k0: nat)
    requires IsCalendarDate(base.date) && base.repeat.kind != NoRepeat
    ensures forall d :: d in Occurrences(base, end, k0) ==>
      && Accepted(base, d)
      && DayNumber(Candidate(base.date, base.repeat.kind, k0)) <= DayNumber(d) <= DayNumber(end)
    decreases DayNumber(end) - DayNumber(Candidate(base.date, base.repeat.kind, k0))
  {
    if DayNumber(Candidate(base.date, base.repeat.kind, k0)) <= DayNumber(end) {
      OccurrencesStep(base, end, k0);
      OccurrencesBounds(base, end, k0 + 1);
    }
  }

  predicate Ascending(ds: seq<Date>) {
    forall i, j :: 0 <= i < j < |ds| ==> DayNumber(ds[i]) < DayNumber(ds[j])
  }

  lemma AscendingCons(x: Date, tail: seq<Date>)
    requires Ascending(tail)
    requires forall d :: d in tail ==> DayNumber(x) < DayNumber(d)
    ensures Ascending([x] + tail)
  {
    var ds := [x] + tail;
    forall i, j | 0 <= i < j < |ds|
      ensures DayNumber(ds[i]) < DayNumber(ds[j])
    {
      assert ds[j] == tail[j - 1];
      if i > 0 {
        assert ds[i] == tail[i - 1];
      }
    }
  }

  lemma {:induction false} OccurrencesAscending(base: Event, end: Date, k0: nat)
    requires IsCalendarDate(base.date) && base.repeat.kind != NoRepeat
    ensures Ascending(Occurrences(base, end, k0))
    decreases DayNumber(end) - DayNumber(Candidate(base.date, base.repeat.kind, k0))
  {
    var next := Candidate(base.date, base.repeat.kind, k0);
    if DayNumber(next) <= DayNumber(end) {
      OccurrencesStep(base, end, k0);
      OccurrencesAscending(base, end, k0 + 1);
      var tail := Occurrences(base, end, k0 + 1);
      if Accepted(base, next) {
        OccurrencesBounds(base, end, k0 + 1);
        AscendingCons(next, tail);
      } else {
        assert Occurrences(base, end, k0) == tail;
      }
    }
  }

  lemma {:induction false} OccurrencesSteps(base: Event, end: Date, k0: nat, d: Date)
    requires IsCalendarDate(base.date) && base.repeat.kind != NoRepeat
    requires d in Occurrences(base, end, k0)
    ensures exists k: nat :: k0 <= k && Candidate(base.date, base.repeat.kind, k) == d
    decreases DayNumber(end) - DayNumber(Candidate(base.date, base.repeat.kind, k0))
  {
    var kind := base.repeat.kind;
    var next := Candidate(base.date, kind, k0);
    OccurrencesStep(base, end, k0);
    if d in Occurrences(base, end, k0 + 1) {
      OccurrencesSteps(base, end, k0 + 1, d);
      var k: nat :| k0 + 1 <= k && Candidate(base.date, kind, k) == d;
      assert k0 <= k;
    } else {
      assert Candidate(base.date, kind, k0) == d;
    }
  }

  lemma {:induction false} OccurrencesComplete(base: Event, end: Date, k0: nat, k: nat)
    requires IsCalendarDate(base.date) && base.repeat.kind != NoRepeat && k0 <= k
    requires DayNumber(Candidate(base.date, base.repeat.kind, k)) <= DayNumber(end)
    requires Accepted(base, Candidate(base.date, base.repeat.kind, k))
    ensures Candidate(base.date, base.repeat.kind, k) in Occurrences(base, end, k0)
    decreases k - k0
  {
    var c := Candidate(base.date, base.repeat.kind, k);
    if k0 < k {
      CandidateMonotone(base.date, base.repeat.kind, k0, k);
      OccurrencesStep(base, end, k0);
      OccurrencesComplete(base, end, k0 + 1, k);
      assert c in Occurrences(base, end, k0 + 1);
    } else {
      OccurrencesStep(base, end, k0);
    }
  }

  /** A date is emitted exactly when it is an accepted candidate of a step k >= 1 that does
      not pass the end date; nothing else is emitted. */
  lemma OccurrenceDatesCharacterization(base: Event, d: Date)
    requires WellFormed(base)
    ensures d in OccurrenceDates(base) <==> IsOccurrence(base, d)
  {
    if base.repeat.kind != NoRepeat && base.repeat.endDate.Some? {
      var kind := base.repeat.kind;
      var end := base.repeat.endDate.value;
      if DayNumber(end) < DayNumber(base.date) {
        if IsOccurrence(base, d) {
          var k: nat :| 1 <= k && Candidate(base.date, kind, k) == d;
          CandidateZero(base.date, kind);
          CandidateMonotone(base.date, kind, 0, k);
        }
      } else {
        if d in OccurrenceDates(base) {
          OccurrencesBounds(base, end, 1);
          OccurrencesSteps(base, end, 1, d);
        }
        if IsOccurrence(base, d) {
          var k: nat :| 1 <= k && Candidate(base.date, kind, k) == d;
          OccurrencesComplete(base, end, 1, k);
        }
      }
    }
  }

  /** An event is a virtual occurrence of `base` exactly when it is `base` moved to an
      occurrence date under that date's virtual id. */
  lemma ExpansionCharacterization(base: Event, x: Event)
    requires WellFormed(base)
    ensures x in Expansion(base) <==> IsCalendarDate(x.date) && x == Instance(base, x.date) && IsOccurrence(base, x.date)
  {
    var ds := OccurrenceDates(base);
    OccurrenceDatesCharacterization(base, x.date);
    if x in Expansion(base) {
      var i :| 0 <= i < |ds| && Expansion(base)[i] == x;
      assert ds[i] == x.date;
    }
    if IsCalendarDate(x.date) && x == Instance(base, x.date) && IsOccurrence(base, x.date) {
      var i :| 0 <= i < |ds| && ds[i] == x.date;
      assert Expansion(base)[i] == x;
    }
  }

  /** Occurrence dates fall strictly after the anchor and on or before the end date, avoid
      the exceptions, and keep the anchor's day of month when monthly or yearly. */
  lemma OccurrenceDatesBounded(base: Event)
    requires WellFormed(base)
    ensures var ds := OccurrenceDates(base);
      forall i :: 0 <= i < |ds| ==>
        && DayNumber(base.date) < DayNumber(ds[i]) <= DayNumber(base.repeat.endDate.value)
        && ds[i] !in base.repeat.exceptions
        && ((base.repeat.kind == Monthly || base.repeat.kind == Yearly) ==> ds[i].day == base.date.day)
  {
    if base.repeat.kind != NoRepeat && base.repeat.endDate.Some?
       && DayNumber(base.repeat.endDate.value) >= DayNumber(base.date)
    {
      var kind := base.repeat.kind;
      var ds := OccurrenceDates(base);
      assert ds == Occurrences(base, base.repeat.endDate.value, 1);
      OccurrencesBounds(base, base.repeat.endDate.value, 1);
      FirstCandidateAfterAnchor(base.date, kind);
      var first := DayNumber(Candidate(base.date, kind, 1));
      forall i | 0 <= i < |ds|
        ensures DayNumber(base.date) < DayNumber(ds[i]) <= DayNumber(base.repeat.endDate.value)
        ensures ds[i] !in base.repeat.exceptions
        ensures (kind == Monthly || kind == Yearly) ==> ds[i].day == base.date.day
      {
        assert Accepted(base, ds[i]) && first <= DayNumber(ds[i]);
      }
    }
  }

  /** Occurrence dates come out in strictly increasing order. */
  lemma OccurrenceDatesAscending(base: Event)
    requires WellFormed(base)
    ensures Ascending(OccurrenceDates(base))
  {
    if base.repeat.kind != NoRepeat && base.repeat.endDate.Some?
       && DayNumber(base.repeat.endDate.value) >= DayNumber(base.date)
    {
      OccurrencesAscending(base, base.repeat.endDate.value, 1);
    }
  }

  /** Every occurrence is the series itself, moved to an occurrence date under that date's
      virtual id, so it still carries the series' repeat rule. */
  lemma ExpansionCopiesSeries(base: Event)
    requires WellFormed(base)
    ensures var r := Expansion(base);
      forall i :: 0 <= i < |r| ==>
        && r[i].id == VirtualId(base.id, r[i].date)
        && r[i].date == OccurrenceDates(base)[i]
        && r[i].(id := base.id, date := base.date) == base
        && r[i].repeat.kind != NoRepeat
  {
    if base.repeat.kind == NoRepeat {
      assert OccurrenceDates(base) == [];
    }
  }

  /** A monthly candidate keeps the anchor's day exactly when the target month has that day,
      and then it is that day of the target month. */
  lemma MonthlyCandidate(anchor: Date, k: nat)
    requires IsCalendarDate(anchor)
    ensures var y := anchor.year + (anchor.month - 1 + k) / 12;
            var m := (anchor.month - 1 + k) % 12 + 1;
            && (Candidate(anchor, Monthly, k).day == anchor.day <==> anchor.day <= DaysInMonth(y, m))
            && (anchor.day <= DaysInMonth(y, m) ==> Candidate(anchor, Monthly, k) == Date(y, m, anchor.day))
  {
    MakeDateKeepsDay(Shifted(anchor, Monthly, k));
  }

  /** A yearly candidate keeps the anchor's day exactly when that year's month has it
      (a February 29th anchor only in leap years), and then it is the anniversary itself. */
  lemma YearlyCandidate(anchor: Date, k: nat)
    requires IsCalendarDate(anchor)
    ensures Candidate(anchor, Yearly, k).day == anchor.day <==> anchor.day <= DaysInMonth(anchor.year + k, anchor.month)
    ensures anchor.day <= DaysInMonth(anchor.year + k, anchor.month)
            ==> Candidate(anchor, Yearly, k) == Date(anchor.year + k, anchor.month, anchor.day)
  {
    assert (anchor.month - 1) / 12 == 0 && (anchor.month - 1) % 12 + 1 == anchor.month;
    MakeDateKeepsDay(Shifted(anchor, Yearly, k));
  }

  /** A daily series covers every day after the anchor up to the end date that is not an
      exception; a weekly one every such day a whole number of weeks after the anchor. */
  lemma DailyWeeklyCoverage(base: Event, d: Date)
    requires WellFormed(base) && IsCalendarDate(d)
    requires base.repeat.kind == Daily || base.repeat.kind == Weekly
    requires base.repeat.endDate.Some?
    requires DayNumber(base.date) < DayNumber(d) <= DayNumber(base.repeat.endDate.value)
    requires base.repeat.kind == Weekly ==> (DayNumber(d) - DayNumber(base.date)) % 7 == 0
    requires d !in base.repeat.exceptions
    ensures d in OccurrenceDates(base)
    ensures Instance(base, d) in Expansion(base)
  {
    var gap := DayNumber(d) - DayNumber(base.date);
    var k: nat := if base.repeat.kind == Daily then gap else gap / 7;
    DailyWeeklyCandidate(base.date, base.repeat.kind, k);
    CandidateIsDate(base.date, base.repeat.kind, k);
    DayNumberInjective(Candidate(base.date, base.repeat.kind, k), d);
    OccurrencesComplete(base, base.repeat.endDate.value, 1, k);
    var ds := OccurrenceDates(base);
    assert ds == Occurrences(base, base.repeat.endDate.value, 1);
    var i :| 0 <= i < |ds| && ds[i] == d;
    assert Expansion(base)[i] == Instance(base, d);
  }

  /** Which dates are emitted depends only on the anchor, the kind, the end date and the
      exceptions: in particular never on `repeat.interval`. */
  lemma {:induction false} OccurrencesDependOnRule(b1: Event, b2: Event, end: Date, k: nat)
    requires IsCalendarDate(b1.date) && b1.repeat.kind != NoRepeat
    requires b1.date == b2.date && b1.repeat.kind == b2.repeat.kind
    requires b1.repeat.exceptions == b2.repeat.exceptions
    ensures Occurrences(b1, end, k) == Occurrences(b2, end, k)
    decreases DayNumber(end) - DayNumber(Candidate(b1.date, b1.repeat.kind, k))
  {
    if DayNumber(Candidate(b1.date, b1.repeat.kind, k)) <= DayNumber(end) {
      OccurrencesStep(b1, end, k);
      OccurrencesStep(b2, end, k);
      OccurrencesDependOnRule(b1, b2, end, k + 1);
    }
  }

  lemma IntervalIgnored(base: Event, interval: int)
    requires WellFormed(base)
    ensures OccurrenceDates(base.(repeat := base.repeat.(interval := interval))) == OccurrenceDates(base)
    ensures Keys(Expansion(base.(repeat := base.repeat.(interval := interval)))) == Keys(Expansion(base))
  {
    var other := base.(repeat := base.repeat.(interval := interval));
    if base.repeat.kind != NoRepeat && base.repeat.endDate.Some?
       && DayNumber(base.repeat.endDate.value) >= DayNumber(base.date)
    {
      OccurrencesDependOnRule(other, base, base.repeat.endDate.value, 1);
    }
  }

  /** The dates of `ds` other than `d`, in order. */
  function RemoveDate(ds: seq<Date>, d: Date): (r: seq<Date>)
    ensures forall x :: x in r <==> x in ds && x != d
  {
    if ds == [] then [] else (if ds[0] == d then [] else [ds[0]]) + RemoveDate(ds[1..], d)
  }

  /** Adding an exception removes exactly that date from the emitted dates. */
  lemma {:induction false} OccurrencesWithException(base: Event, end: Date, k: nat, d: Date)
    requires IsCalendarDate(base.date) && base.repeat.kind != NoRepeat
    ensures Occurrences(WithException(base, d), end, k) == RemoveDate(Occurrences(base, end, k), d)
    decreases DayNumber(end) - DayNumber(Candidate(base.date, base.repeat.kind, k))
  {
    var b2 := WithException(base, d);
    var next := Candidate(base.date, base.repeat.kind, k);
    if DayNumber(next) <= DayNumber(end) {
      OccurrencesStep(base, end, k);
      OccurrencesStep(b2, end, k);
      OccurrencesWithException(base, end, k + 1, d);
      var head: seq<Date> := if Accepted(base, next) then [next] else [];
      RemoveDateAppend(head, Occurrences(base, end, k + 1), d);
    }
  }

  lemma {:induction false} RemoveDateAppend(a: seq<Date>, b: seq<Date>, d: Date)
    ensures RemoveDate(a + b, d) == RemoveDate(a, d) + RemoveDate(b, d)
  {
    if a != [] {
      assert (a + b)[1..] == a[1..] + b;
      RemoveDateAppend(a[1..], b, d);
    } else {
      assert a + b == b;
    }
  }

  lemma InstancesAppend(base: Event, a: seq<Date>, b: seq<Date>)
    requires forall d :: d in a ==> IsCalendarDate(d)
    requires forall d :: d in b ==> IsCalendarDate(d)
    ensures Instances(base, a + b) == Instances(base, a) + Instances(base, b)
  {
  }

  /** Moving a series to the dates other than `d` shows the keys other than those dated `d`. */
  lemma {:induction false} InstancesRemoveDate(b1: Event, b2: Event, ds: seq<Date>, d: Date)
    requires forall d :: d in ds ==> IsCalendarDate(d)
    requires b1.id == b2.id
    ensures Keys(Instances(b2, RemoveDate(ds, d))) == WithoutDate(Keys(Instances(b1, ds)), d)
  {
    if ds != [] {
      var first := [ds[0]];
      var head: seq<Date> := if ds[0] == d then [] else first;
      var rest := RemoveDate(ds[1..], d);
      InstancesRemoveDate(b1, b2, ds[1..], d);
      assert RemoveDate(ds, d) == head + rest;
      InstancesAppend(b2, head, rest);
      KeysAppend(Instances(b2, head), Instances(b2, rest));
      assert ds == first + ds[1..];
      InstancesAppend(b1, first, ds[1..]);
      KeysAppend(Instances(b1, first), Instances(b1, ds[1..]));
      WithoutDateAppend(Keys(Instances(b1, first)), Keys(Instances(b1, ds[1..])), d);
      assert WithoutDate(Keys(Instances(b1, first)), d) == Keys(Instances(b2, head));
    }
  }

  /** Adding an exception hides exactly the occurrence on that date and leaves every other
      occurrence's id and date as they were. */
  lemma ExpansionWithException(base: Event, d: Date)
    requires WellFormed(base)
    ensures OccurrenceDates(WithException(base, d)) == RemoveDate(OccurrenceDates(base), d)
    ensures Keys(Expansion(WithException(base, d))) == WithoutDate(Keys(Expansion(base)), d)
  {
    if base.repeat.kind != NoRepeat && base.repeat.endDate.Some?
       && DayNumber(base.repeat.endDate.value) >= DayNumber(base.date)
    {
      OccurrencesWithException(base, base.repeat.endDate.value, 1, d);
    }
    InstancesRemoveDate(base, WithException(base, d), OccurrenceDates(base), d);
  }
}
