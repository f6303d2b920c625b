/**
 * `getEventsForView`: what a calendar shows for an inclusive date range. Each stored event
 * contributes itself, when its date is in range and not among its own exceptions, followed
 * by those of its virtual occurrences that fall in range, in the order of the stored list.
 */
module Views {
  import opened Calendar
  import opened Events
  import opened Recurrence

  /** `start <= d && d <= end`, comparing the two `Date`s as JavaScript does. */
  predicate InRange(d: Date, start: Date, end: Date) {
    DayNumber(start) <= DayNumber(d) <= DayNumber(end)
  }

  /** `events.filter(...)` keeping the events dated within the range. */
  function InRangeOnly(es: seq<Event>, start: Date, end: Date): (r: seq<Event>)
    ensures forall x :: x in r <==> x in es && InRange(x.date, start, end)
  {
    if es == [] then []
    else (if InRange(es[0].date, start, end) then [es[0]] else []) + InRangeOnly(es[1..], start, end)
  }

  /** What one stored event contributes to the view. */
  function EventView(e: Event, start: Date, end: Date): seq<Event>
    requires WellFormed(e)
  {
    (if e.date !in e.repeat.exceptions && InRange(e.date, start, end) then [e] else [])
    + (if e.repeat.kind != NoRepeat then InRangeOnly(Expansion(e), start, end) else [])
  }

  /** The contributions of the stored events, in their order. */
  function View(events: seq<Event>, start: Date, end: Date): seq<Event>
    requires forall e :: e in events ==> WellFormed(e)
  {
    if events == [] then []
    else View(events[..|events| - 1], start, end) + EventView(events[|events| - 1], start, end)
  }

  method GetEventsForView(allEvents: seq<Event>, viewStartDate: Date, viewEndDate: Date)
    returns (eventsInView: seq<Event>)
    requires forall e :: e in allEvents ==> WellFormed(e)
    ensures eventsInView == View(allEvents, viewStartDate, viewEndDate)
  {
    eventsInView := [];
    for i := 0 to |allEvents|
      invariant eventsInView == View(allEvents[..i], viewStartDate, viewEndDate)
    {
      var event := allEvents[i];
      var isException := event.date in event.repeat.exceptions;
      ghost var before := eventsInView;
      ghost var own: seq<Event> :=
        if !isException && InRange(event.date, viewStartDate, viewEndDate) then [event] else [];
      ghost var occ: seq<Event> :=
        if event.repeat.kind != NoRepeat then InRangeOnly(Expansion(event), viewStartDate, viewEndDate) else [];
      assert EventView(event, viewStartDate, viewEndDate) == own + occ;
      if !isException && InRange(event.date, viewStartDate, viewEndDate) {
        eventsInView := eventsInView + [event];
      } else {
        assert before + own == before;
      }
      assert eventsInView == before + own;
      if event.repeat.kind != NoRepeat {
        var recurringInstances := GenerateRecurringEvents(event);
        var recurringInView := InRangeOnly(recurringInstances, viewStartDate, viewEndDate);
        eventsInView := eventsInView + recurringInView;
      } else {
        assert before + own + occ == before + own;
      }
      assert eventsInView == before + own + occ;
      EventsAssociative(before, own, occ);
      ViewSnoc(allEvents[..i], event, viewStartDate, viewEndDate);
      TakeSnoc(allEvents, i);
    }
    assert allEvents[..|allEvents|] == allEvents;
  }

  lemma TakeSnoc(s: seq<Event>, i: nat)
    requires i < |s|
    ensures s[..i + 1] == s[..i] + [s[i]]
  {
  }

  lemma EventsAssociative(a: seq<Event>, b: seq<Event>, c: seq<Event>)
    ensures a + b + c == a + (b + c)
  {
  }

  /** Appending a stored event appends its contribution. */
  lemma ViewSnoc(events: seq<Event>, e: Event, start: Date, end: Date)
    requires forall x :: x in events ==> WellFormed(x)
    requires WellFormed(e)
    ensures View(events + [e], start, end) == View(events, start, end) + EventView(e, start, end)
  {
    assert (events + [e])[..|events|] == events;
  }

  // ---------------------------------------------------------------------------------------
  // What the view contains

  /** The view of a concatenation is the concatenation of the views. */
  lemma {:induction false} ViewAppend(a: seq<Event>, b: seq<Event>, start: Date, end: Date)
    requires forall e :: e in a ==> WellFormed(e)
    requires forall e :: e in b ==> WellFormed(e)
    ensures View(a + b, start, end) == View(a, start, end) + View(b, start, end)
    decreases |b|
  {
    if b == [] {
      assert a + b == a;
    } else {
      var init := b[..|b| - 1];
      var last := b[|b| - 1];
      TakeSnoc(b, |b| - 1);
      EventsAssociative(a, init, [last]);
      assert b[..|b|] == b;
      ViewAppend(a, init, start, end);
      ViewSnoc(a + init, last, start, end);
      ViewSnoc(init, last, start, end);
      EventsAssociative(View(a, start, end), View(init, start, end), EventView(last, start, end));
    }
  }

  /** A one-event list shows that event's contribution. */
  lemma ViewSingleton(e: Event, start: Date, end: Date)
    requires WellFormed(e)
    ensures View([e], start, end) == EventView(e, start, end)
  {
    assert [e][..0] == [];
  }

  /** An event shows on the view of one stored event exactly when it is that event, in range
      and not excepted, or one of its virtual occurrences dated in range. */
  lemma EventViewMembership(e: Event, start: Date, end: Date, x: Event)
    requires WellFormed(e)
    ensures x in EventView(e, start, end) <==>
      || (x == e && e.date !in e.repeat.exceptions && InRange(e.date, start, end))
      || (IsCalendarDate(x.date) && x == Instance(e, x.date) && IsOccurrence(e, x.date)
          && InRange(x.date, start, end))
  {
    ExpansionCharacterization(e, x);
  }

  /** An event shows on the view exactly when some stored event contributes it. */
  lemma {:induction false} ViewMembership(events: seq<Event>, start: Date, end: Date, x: Event)
    requires forall e :: e in events ==> WellFormed(e)
    ensures x in View(events, start, end) <==> exists e :: e in events && x in EventView(e, start, end)
    decreases |events|
  {
    if events != [] {
      var init := events[..|events| - 1];
      var last := events[|events| - 1];
      TakeSnoc(events, |events| - 1);
      assert events[..|events|] == events;
      ViewMembership(init, start, end, x);
      if x in EventView(last, start, end) {
        assert last in events;
      } else if x in View(init, start, end) {
        var e :| e in init && x in EventView(e, start, end);
        assert e in events;
      } else {
        forall e | e in events
          ensures x !in EventView(e, start, end)
        {
          assert e in init || e == last;
        }
      }
    }
  }

  /** Everything the view shows is dated within the range. */
  lemma ViewInRange(events: seq<Event>, start: Date, end: Date)
    requires forall e :: e in events ==> WellFormed(e)
    ensures forall x :: x in View(events, start, end) ==> InRange(x.date, start, end)
  {
    forall x | x in View(events, start, end)
      ensures InRange(x.date, start, end)
    {
      ViewMembership(events, start, end, x);
      var e :| e in events && x in EventView(e, start, end);
      EventViewInRange(e, start, end, x);
    }
  }

  lemma EventViewInRange(e: Event, start: Date, end: Date, x: Event)
    requires WellFormed(e) && x in EventView(e, start, end)
    ensures InRange(x.date, start, end)
  {
  }

  // ---------------------------------------------------------------------------------------
  // Exceptions

  /** The keys dated within the range, in order. */
  function KeysInRange(ks: seq<(string, Date)>, start: Date, end: Date): seq<(string, Date)> {
    if ks == [] then []
    else (if InRange(ks[0].1, start, end) then [ks[0]] else []) + KeysInRange(ks[1..], start, end)
  }

  lemma {:induction false} KeysOfInRangeOnly(es: seq<Event>, start: Date, end: Date)
    ensures Keys(InRangeOnly(es, start, end)) == KeysInRange(Keys(es), start, end)
  {
    if es != [] {
      var head := if InRange(es[0].date, start, end) then [es[0]] else [];
      KeysOfInRangeOnly(es[1..], start, end);
      KeysAppend(head, InRangeOnly(es[1..], start, end));
      assert Keys(es)[1..] == Keys(es[1..]);
    }
  }

  lemma {:induction false} KeysInRangeWithoutDate(ks: seq<(string, Date)>, d: Date, start: Date, end: Date)
    ensures KeysInRange(WithoutDate(ks, d), start, end) == WithoutDate(KeysInRange(ks, start, end), d)
  {
    if ks != [] {
      var head: seq<(string, Date)> := if ks[0].1 == d then [] else [ks[0]];
      var inHead: seq<(string, Date)> := if InRange(ks[0].1, start, end) then [ks[0]] else [];
      KeysInRangeWithoutDate(ks[1..], d, start, end);
      KeysInRangeAppend(head, WithoutDate(ks[1..], d), start, end);
      WithoutDateAppend(inHead, KeysInRange(ks[1..], start, end), d);
    }
  }

  lemma {:induction false} KeysInRangeAppend(a: seq<(string, Date)>, b: seq<(string, Date)>, start: Date, end: Date)
    ensures KeysInRange(a + b, start, end) == KeysInRange(a, start, end) + KeysInRange(b, start, end)
  {
    if a != [] {
      assert (a + b)[1..] == a[1..] + b;
      KeysInRangeAppend(a[1..], b, start, end);
    } else {
      assert a + b == b;
    }
  }

  /** Adding an exception date to a stored event hides exactly what it showed on that date,
      itself included when it is dated there, and leaves the rest of its contribution as it
      was. */
  lemma ExceptionHidesOnlyThatDate(e: Event, d: Date, start: Date, end: Date)
    requires WellFormed(e)
    ensures Keys(EventView(WithException(e, d), start, end)) == WithoutDate(Keys(EventView(e, start, end)), d)
  {
    var e2 := WithException(e, d);
    var own: seq<Event> := if e.date !in e.repeat.exceptions && InRange(e.date, start, end) then [e] else [];
    var own2: seq<Event> := if e2.date !in e2.repeat.exceptions && InRange(e2.date, start, end) then [e2] else [];
    var occ: seq<Event> := if e.repeat.kind != NoRepeat then InRangeOnly(Expansion(e), start, end) else [];
    var occ2: seq<Event> := if e2.repeat.kind != NoRepeat then InRangeOnly(Expansion(e2), start, end) else [];
    assert Keys(own2) == WithoutDate(Keys(own), d);
    if e.repeat.kind != NoRepeat {
      ExpansionWithException(e, d);
      KeysOfInRangeOnly(Expansion(e), start, end);
      KeysOfInRangeOnly(Expansion(e2), start, end);
      KeysInRangeWithoutDate(Keys(Expansion(e)), d, start, end);
    }
    assert Keys(occ2) == WithoutDate(Keys(occ), d);
    KeysAppend(own, occ);
    KeysAppend(own2, occ2);
    WithoutDateAppend(Keys(own), Keys(occ), d);
  }

  /** A stored event that does not repeat shows exactly when its date is in range and not
      among its own exceptions. */
  lemma SingleEventView(e: Event, start: Date, end: Date)
    requires WellFormed(e) && e.repeat.kind == NoRepeat
    ensures EventView(e, start, end)
         == if e.date !in e.repeat.exceptions && InRange(e.date, start, end) then [e] else []
  {
  }
}
