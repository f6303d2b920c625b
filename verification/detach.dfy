/**
 * `updateSingleRecurringEvent` and `deleteSingleRecurringEvent`: detaching one occurrence
 * from a stored series. Both work on a copy of the stored list: the first event with the
 * series' id gets the occurrence date appended to its exceptions; an update also appends a
 * standalone, non-repeating event carrying the changes. An unknown id leaves the list as it
 * was.
 */
module Detach {
  import opened Wrappers
  import opened Calendar
  import opened Events
  import opened Views

  /** `findIndex(e => e.id === id)`: the first position holding that id. */
  function FindIndex(events: seq<Event>, id: string): (r: Option<nat>)
    ensures r.Some? ==> r.value < |events| && events[r.value].id == id
    ensures r.Some? ==> forall j :: 0 <= j < r.value ==> events[j].id != id
    ensures r.None? ==> forall j :: 0 <= j < |events| ==> events[j].id != id
  {
    if events == [] then None
    else if events[0].id == id then Some(0)
    else match FindIndex(events[1..], id)
      case None => None
      case Some(j) => Some(j + 1)
  }

  /** The standalone event an update leaves on the detached date: the series, overlaid with
      the changes, under a fresh `single-` id, on that date, and not repeating. */
  function DetachedCopy(series: Event, updatedInfo: Patch, d: Date, now: nat): Event {
    Overlay(series, updatedInfo).(id := SingleId(now), date := d, repeat := RepeatInfo(NoRepeat, 0, None, []))
  }

  /** The stored list after deleting the occurrence on `d` of the series `id`. */
  function DeleteSingle(allEvents: seq<Event>, id: string, d: Date): (r: seq<Event>)
    ensures |r| == |allEvents|
    ensures FindIndex(allEvents, id).None? ==> r == allEvents
    ensures forall j :: 0 <= j < |allEvents| ==>
      r[j] == if FindIndex(allEvents, id) == Some(j) then WithException(allEvents[j], d) else allEvents[j]
  {
    match FindIndex(allEvents, id)
    case None => allEvents
    case Some(i) => allEvents[i := WithException(allEvents[i], d)]
  }

  /** The stored list after changing the occurrence on `d` of the series `id`, with the
      standalone event it added, if any. */
  function UpdateSingle(allEvents: seq<Event>, id: string, d: Date, updatedInfo: Patch, now: nat)
    : (r: (seq<Event>, Option<Event>))
    ensures FindIndex(allEvents, id).None? ==> r == (allEvents, None)
    ensures FindIndex(allEvents, id).Some? ==>
      var i := FindIndex(allEvents, id).value;
      r.1 == Some(DetachedCopy(WithException(allEvents[i], d), updatedInfo, d, now))
      && r.0 == DeleteSingle(allEvents, id, d) + [r.1.value]
  {
    match FindIndex(allEvents, id)
    case None => (allEvents, None)
    case Some(i) =>
      var series := WithException(allEvents[i], d);
      var single := DetachedCopy(series, updatedInfo, d, now);
      (allEvents[i := series] + [single], Some(single))
  }

  method DeleteSingleRecurringEvent(allEvents: seq<Event>, originalEventId: string, deletionDate: Date)
    returns (updatedEvents: seq<Event>)
    ensures updatedEvents == DeleteSingle(allEvents, originalEventId, deletionDate)
  {
    var newEvents := allEvents;
    var originalEventIndex := FindIndex(newEvents, originalEventId);
    if originalEventIndex.None? {
      return allEvents;
    }
    var i := originalEventIndex.value;
    var originalEvent := newEvents[i];
    var exceptions := originalEvent.repeat.exceptions + [deletionDate];
    originalEvent := originalEvent.(repeat := originalEvent.repeat.(exceptions := exceptions));
    newEvents := newEvents[i := originalEvent];
    return newEvents;
  }

  method UpdateSingleRecurringEvent(
    allEvents: seq<Event>, originalEventId: string, modificationDate: Date, updatedInfo: Patch, now: nat)
    returns (updatedEvents: seq<Event>, newSingleEvent: Option<Event>)
    ensures (updatedEvents, newSingleEvent) == UpdateSingle(allEvents, originalEventId, modificationDate, updatedInfo, now)
  {
    var newEvents := allEvents;
    var originalEventIndex := FindIndex(newEvents, originalEventId);
    if originalEventIndex.None? {
      return allEvents, None;
    }
    var i := originalEventIndex.value;
    var originalEvent := newEvents[i];
    var exceptions := originalEvent.repeat.exceptions + [modificationDate];
    originalEvent := originalEvent.(repeat := originalEvent.repeat.(exceptions := exceptions));
    newEvents := newEvents[i := originalEvent];
    var single := Overlay(originalEvent, updatedInfo);
    single := single.(id := SingleId(now), date := modificationDate, repeat := RepeatInfo(NoRepeat, 0, None, []));
    newEvents := newEvents + [single];
    return newEvents, Some(single);
  }

  // ---------------------------------------------------------------------------------------
  // Effects on what the calendar shows

  /** The detached copy carries every change given, sits on the detached date under its
      `single-` id, and does not repeat. */
  lemma DetachedCopyFields(series: Event, p: Patch, d: Date, now: nat)
    ensures var c := DetachedCopy(series, p, d, now);
      && c.id == SingleId(now) && c.date == d && c.repeat == RepeatInfo(NoRepeat, 0, None, [])
      && c.title == p.title.GetOr(series.title)
      && c.startTime == p.startTime.GetOr(series.startTime)
      && c.endTime == p.endTime.GetOr(series.endTime)
      && c.description == p.description.GetOr(series.description)
      && c.location == p.location.GetOr(series.location)
      && c.category == p.category.GetOr(series.category)
      && c.notificationTime == p.notificationTime.GetOr(series.notificationTime)
  {
  }

  /** The detached copy shows exactly on its own date. */
  lemma DetachedCopyView(series: Event, p: Patch, d: Date, now: nat, start: Date, end: Date)
    requires IsCalendarDate(d)
    ensures WellFormed(DetachedCopy(series, p, d, now))
    ensures EventView(DetachedCopy(series, p, d, now), start, end)
         == if InRange(d, start, end) then [DetachedCopy(series, p, d, now)] else []
  {
  }

  lemma WithExceptionWellFormed(e: Event, d: Date)
    requires WellFormed(e)
    ensures WellFormed(WithException(e, d))
  {
  }

  lemma UpdateAt(s: seq<Event>, i: nat, x: Event)
    requires i < |s|
    ensures s[i := x] == s[..i] + [x] + s[i + 1..]
    ensures s == s[..i] + [s[i]] + s[i + 1..]
  {
  }

  /** Both operations keep every stored event well formed. */
  lemma DeleteSingleWellFormed(events: seq<Event>, id: string, d: Date)
    requires forall e :: e in events ==> WellFormed(e)
    ensures forall e :: e in DeleteSingle(events, id, d) ==> WellFormed(e)
  {
    forall e | e in DeleteSingle(events, id, d)
      ensures WellFormed(e)
    {
      var j :| 0 <= j < |events| && DeleteSingle(events, id, d)[j] == e;
      assert events[j] in events;
    }
  }

  /** Deleting one occurrence hides exactly what the series showed on that date: the rest of
      the view, the other stored events' share included, stays as it was. */
  lemma DeleteSingleView(events: seq<Event>, id: string, d: Date, start: Date, end: Date)
    requires forall e :: e in events ==> WellFormed(e)
    requires FindIndex(events, id).Some?
    ensures forall e :: e in DeleteSingle(events, id, d) ==> WellFormed(e)
    ensures var i := FindIndex(events, id).value;
      Keys(View(DeleteSingle(events, id, d), start, end))
      == Keys(View(events[..i], start, end))
         + WithoutDate(Keys(EventView(events[i], start, end)), d)
         + Keys(View(events[i + 1..], start, end))
  {
    var i := FindIndex(events, id).value;
    var series := WithException(events[i], d);
    var before, after := events[..i], events[i + 1..];
    assert events[i] in events;
    WithExceptionWellFormed(events[i], d);
    UpdateAt(events, i, series);
    assert DeleteSingle(events, id, d) == before + [series] + after;
    DeleteSingleWellFormed(events, id, d);
    forall e | e in before ensures WellFormed(e) {
      assert e in events;
    }
    forall e | e in after ensures WellFormed(e) {
      assert e in events;
    }
    ViewAppend(before + [series], after, start, end);
    ViewAppend(before, [series], start, end);
    ViewSingleton(series, start, end);
    ExceptionHidesOnlyThatDate(events[i], d, start, end);
    KeysAppend(View(before, start, end) + EventView(series, start, end), View(after, start, end));
    KeysAppend(View(before, start, end), EventView(series, start, end));
  }

  /** Appending a standalone event that shows exactly on its own date appends its key when
      that date is in range. */
  lemma KeysViewSnoc(events: seq<Event>, e: Event, start: Date, end: Date)
    requires forall x :: x in events ==> WellFormed(x)
    requires WellFormed(e)
    requires EventView(e, start, end) == if InRange(e.date, start, end) then [e] else []
    ensures forall x :: x in events + [e] ==> WellFormed(x)
    ensures Keys(View(events + [e], start, end))
         == Keys(View(events, start, end)) + (if InRange(e.date, start, end) then [(e.id, e.date)] else [])
  {
    SnocWellFormed(events, e);
    ViewSnoc(events, e, start, end);
    KeysAppend(View(events, start, end), EventView(e, start, end));
  }

  lemma SnocWellFormed(events: seq<Event>, e: Event)
    requires forall x :: x in events ==> WellFormed(x)
    requires WellFormed(e)
    ensures forall x :: x in events + [e] ==> WellFormed(x)
  {
    forall x | x in events + [e]
      ensures WellFormed(x)
    {
      assert x in events || x == e;
    }
  }

  /** Changing one occurrence shows what deleting it would, plus the detached copy when its
      date is in range. */
  lemma UpdateSingleView(events: seq<Event>, id: string, d: Date, p: Patch, now: nat, start: Date, end: Date)
    requires forall e :: e in events ==> WellFormed(e)
    requires FindIndex(events, id).Some? && IsCalendarDate(d)
    ensures forall e :: e in UpdateSingle(events, id, d, p, now).0 ==> WellFormed(e)
    ensures Keys(View(UpdateSingle(events, id, d, p, now).0, start, end))
         == Keys(View(DeleteSingle(events, id, d), start, end))
            + (if InRange(d, start, end) then [(SingleId(now), d)] else [])
  {
    var series := WithException(events[FindIndex(events, id).value], d);
    var single := DetachedCopy(series, p, d, now);
    DeleteSingleWellFormed(events, id, d);
    DetachedCopyView(series, p, d, now, start, end);
    KeysViewSnoc(DeleteSingle(events, id, d), single, start, end);
  }

  /** Neither operation touches the other stored events, and both keep every stored event
      well formed. */
  lemma DetachKeepsOthers(events: seq<Event>, id: string, d: Date, p: Patch, now: nat)
    requires FindIndex(events, id).Some?
    ensures var i := FindIndex(events, id).value;
      var r := UpdateSingle(events, id, d, p, now).0;
      && |r| == |events| + 1
      && r[..i] == events[..i] && r[i + 1..|events|] == events[i + 1..]
      && r[i] == WithException(events[i], d)
      && r[i].repeat.exceptions == events[i].repeat.exceptions + [d]
      && r[|events|] == DetachedCopy(WithException(events[i], d), p, d, now)
  {
  }
}
