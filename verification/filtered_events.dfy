/**
 * `useFilteredEvents`: the events a calendar page lists. The page shows either the week
 * (Sunday to Saturday) or the month holding the current date; the stored events are
 * expanded into that range, and a non-empty search term then keeps those whose title,
 * description or location contains it, ignoring case.
 */
module FilteredEvents {
  import opened Calendar
  import opened Events
  import opened Recurrence
  import opened Views
  import opened Text

  datatype ViewKind = Week | Month

  /** The week range: `setDate` back `getDay()` days to Sunday, then six days on to
      Saturday. */
  function WeekRange(current: Date): (Date, Date) {
    var first := SetDate(current, current.day - DayOfWeek(current));
    (first, SetDate(first, first.day + 6))
  }

  /** The month range: `new Date(year, month, 1)` to `new Date(year, month + 1, 0)`. */
  function MonthRange(current: Date): (Date, Date) {
    (MakeDate(Fields(current.year, current.month - 1, 1)), MakeDate(Fields(current.year, current.month, 0)))
  }

  function ViewRange(current: Date, view: ViewKind): (Date, Date) {
    match view
    case Week => WeekRange(current)
    case Month => MonthRange(current)
  }

  /** The search predicate: the lowered term occurs in the lowered title, or in a non-empty
      description or location. */
  predicate Matches(e: Event, term: string) {
    var t := Lower(term);
    || Contains(Lower(e.title), t)
    || (|e.description| > 0 && Contains(Lower(e.description), t))
    || (|e.location| > 0 && Contains(Lower(e.location), t))
  }

  /** `eventsInView.filter(...)` with the search predicate. */
  function SearchFilter(es: seq<Event>, term: string): (r: seq<Event>)
    ensures forall x :: x in r <==> x in es && Matches(x, term)
    ensures |r| <= |es|
  {
    if es == [] then []
    else (if Matches(es[0], term) then [es[0]] else []) + SearchFilter(es[1..], term)
  }

  /** The memoised list: the view of the range, searched when the term is not empty. */
  function Filtered(events: seq<Event>, current: Date, view: ViewKind, term: string): seq<Event>
    requires forall e :: e in events ==> WellFormed(e)
  {
    var (viewStartDate, viewEndDate) := ViewRange(current, view);
    var eventsInView := View(events, viewStartDate, viewEndDate);
    if term == [] then eventsInView else SearchFilter(eventsInView, term)
  }

  // ---------------------------------------------------------------------------------------
  // The ranges

  /** Two dates lie in the same Sunday-to-Saturday week. */
  predicate SameWeek(a: Date, b: Date) {
    DayNumber(a) - DayOfWeek(a) == DayNumber(b) - DayOfWeek(b)
  }

  /** The week range runs from a Sunday to the Saturday six days later, and holds exactly
      the dates of the current date's week. */
  lemma WeekRangeSpec(current: Date)
    requires IsCalendarDate(current)
    ensures var first := WeekRange(current).0;
      var last := WeekRange(current).1;
      && IsCalendarDate(first) && IsCalendarDate(last)
      && DayOfWeek(first) == 0 && DayOfWeek(last) == 6
      && DayNumber(last) == DayNumber(first) + 6
      && InRange(current, first, last)
      && forall x :: InRange(x, first, last) <==> SameWeek(x, current)
  {
    WeekRangeDays(current);
    WeekBounds(WeekRange(current).0, WeekRange(current).1, current);
  }

  /** The week range's ends are real dates: the Sunday `getDay()` days back, and six days on. */
  lemma WeekRangeDays(current: Date)
    requires IsCalendarDate(current)
    ensures IsCalendarDate(WeekRange(current).0) && IsCalendarDate(WeekRange(current).1)
    ensures DayNumber(WeekRange(current).0) == DayNumber(current) - DayOfWeek(current)
    ensures DayNumber(WeekRange(current).1) == DayNumber(WeekRange(current).0) + 6
  {
    BackThenOn(current, DayOfWeek(current));
  }

  /** Going back `n` days and then six days on. */
  lemma BackThenOn(current: Date, n: int)
    requires IsCalendarDate(current)
    ensures var first := SetDate(current, current.day - n);
      && IsCalendarDate(first) && DayNumber(first) == DayNumber(current) - n
      && IsCalendarDate(SetDate(first, first.day + 6))
      && DayNumber(SetDate(first, first.day + 6)) == DayNumber(first) + 6
  {
  }

  /** Seven days from the Sunday of `current`'s week run to Saturday and hold exactly the
      dates of that week. */
  lemma WeekBounds(first: Date, last: Date, current: Date)
    requires DayNumber(first) == DayNumber(current) - DayOfWeek(current)
    requires DayNumber(last) == DayNumber(first) + 6
    ensures DayOfWeek(first) == 0 && DayOfWeek(last) == 6
    ensures InRange(current, first, last)
    ensures forall x :: InRange(x, first, last) <==> SameWeek(x, current)
  {
    WeekOf(first, current);
    WeekOf(last, current);
    WeekOf(current, current);
    forall x
      ensures InRange(x, first, last) <==> SameWeek(x, current)
    {
      WeekOf(x, current);
    }
  }

  /** `x` lies within the seven days from the Sunday of `c`'s week exactly when that is also
      its own Sunday. */
  lemma WeekOf(x: Date, c: Date)
    ensures var s := DayNumber(c) - DayOfWeek(c);
      s <= DayNumber(x) <= s + 6 <==> SameWeek(x, c)
    ensures DayNumber(x) == DayNumber(c) - DayOfWeek(c) ==> DayOfWeek(x) == 0
    ensures DayNumber(x) == DayNumber(c) - DayOfWeek(c) + 6 ==> DayOfWeek(x) == 6
  {
    WeekArith(DayNumber(x), DayNumber(c));
  }

  /** With day number `s` the Sunday before day `c`, day `n` lies in `s .. s + 6` exactly when
      its own Sunday is `s`. */
  lemma WeekArith(n: int, c: int)
    ensures var s := c - (c + 1) % 7;
      && (s <= n <= s + 6 <==> n - (n + 1) % 7 == s)
      && (n == s ==> (n + 1) % 7 == 0)
      && (n == s + 6 ==> (n + 1) % 7 == 6)
  {
    var s := c - (c + 1) % 7;
    var q := (c + 1) / 7;
    assert s + 1 == 7 * q;
    var k := n - s;
    if 0 <= k < 7 {
      assert n + 1 == 7 * q + k;
    }
  }

  /** The month range runs from the first to the last day of the current month, and holds
      exactly the dates of that month. */
  lemma MonthRangeSpec(current: Date)
    requires IsCalendarDate(current)
    ensures var (first, last) := MonthRange(current);
      && first == Date(current.year, current.month, 1)
      && last == Date(current.year, current.month, DaysInMonth(current.year, current.month))
      && InRange(current, first, last)
      && forall x :: IsCalendarDate(x) ==>
           (InRange(x, first, last) <==> x.year == current.year && x.month == current.month)
  {
    var (first, last) := MonthRange(current);
    MonthFirst(current);
    MonthLast(current);
    forall x | IsCalendarDate(x)
      ensures InRange(x, first, last) <==> x.year == current.year && x.month == current.month
    {
      DayNumberOrder(x, first);
      DayNumberOrder(last, x);
    }
  }

  /** `new Date(year, month, 1)` is the first of the current month. */
  lemma MonthFirst(current: Date)
    requires IsCalendarDate(current)
    ensures MonthRange(current).0 == Date(current.year, current.month, 1)
  {
    var m := current.month;
    assert (m - 1) / 12 == 0 && (m - 1) % 12 + 1 == m;
    MakeDateKeepsDay(Fields(current.year, m - 1, 1));
  }

  /** `new Date(year, month + 1, 0)` is the last day of the current month. */
  lemma MonthLast(current: Date)
    requires IsCalendarDate(current)
    ensures MonthRange(current).1 == Date(current.year, current.month, DaysInMonth(current.year, current.month))
  {
    MakeDateDayZero(current.year, current.month);
  }

  // ---------------------------------------------------------------------------------------
  // The search

  /** Searching a concatenation searches each part. */
  lemma {:induction false} SearchFilterAppend(a: seq<Event>, b: seq<Event>, term: string)
    ensures SearchFilter(a + b, term) == SearchFilter(a, term) + SearchFilter(b, term)
  {
    if a == [] {
      assert a + b == b;
    } else {
      assert (a + b)[1..] == a[1..] + b;
      SearchFilterAppend(a[1..], b, term);
    }
  }

  /** Searching keeps the events in their order: a search for a term every event matches
      changes nothing. */
  lemma {:induction false} SearchFilterKeepsAll(es: seq<Event>, term: string)
    requires forall x :: x in es ==> Matches(x, term)
    ensures SearchFilter(es, term) == es
  {
    if es != [] {
      assert es[0] in es;
      forall x | x in es[1..] ensures Matches(x, term) {
        assert x in es;
      }
      SearchFilterKeepsAll(es[1..], term);
    }
  }

  /** The search ignores case: an upper-case or lower-case term finds the same events. */
  lemma MatchesIgnoresCase(e: Event, term: string)
    ensures Matches(e, term) <==> Matches(e, Lower(term))
  {
    LowerIdempotent(term);
  }

  /** Every event matches the empty term through its title. */
  lemma MatchesEmptyTerm(e: Event)
    ensures Matches(e, [])
  {
    assert Lower([]) == [];
    assert OccursAt(Lower(e.title), [], 0);
    ContainsOccurs(Lower(e.title), []);
  }

  // ---------------------------------------------------------------------------------------
  // The page

  /** An event is listed exactly when some stored event contributes it to the page's range
      and it matches the search term, if there is one. */
  lemma FilteredMembership(events: seq<Event>, current: Date, view: ViewKind, term: string, x: Event)
    requires forall e :: e in events ==> WellFormed(e)
    ensures var (s, t) := ViewRange(current, view);
      x in Filtered(events, current, view, term)
      <==> (exists e :: e in events && x in EventView(e, s, t)) && (term == [] || Matches(x, term))
  {
    var (s, t) := ViewRange(current, view);
    ViewMembership(events, s, t, x);
  }

  /** The empty term lists the whole view, in order: the same list `getEventsForView` gives. */
  lemma EmptyTermListsView(events: seq<Event>, current: Date, view: ViewKind)
    requires forall e :: e in events ==> WellFormed(e)
    ensures var (s, t) := ViewRange(current, view);
      Filtered(events, current, view, []) == View(events, s, t)
  {
  }

  /** Every listed event is an occurrence dated in the current date's week, or in its month. */
  lemma FilteredDates(events: seq<Event>, current: Date, view: ViewKind, term: string)
    requires forall e :: e in events ==> WellFormed(e)
    requires IsCalendarDate(current)
    ensures forall x :: x in Filtered(events, current, view, term) ==>
      && IsCalendarDate(x.date)
      && (view == Week ==> SameWeek(x.date, current))
      && (view == Month ==> x.date.year == current.year && x.date.month == current.month)
  {
    var (s, t) := ViewRange(current, view);
    WeekRangeSpec(current);
    MonthRangeSpec(current);
    forall x | x in Filtered(events, current, view, term)
      ensures IsCalendarDate(x.date)
      ensures view == Week ==> SameWeek(x.date, current)
      ensures view == Month ==> x.date.year == current.year && x.date.month == current.month
    {
      ViewMembership(events, s, t, x);
      var e :| e in events && x in EventView(e, s, t);
      EventViewMembership(e, s, t, x);
    }
  }
}
