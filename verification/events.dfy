/**
 * The calendar's event record and the identities the engine gives derived events:
 * `{baseId}-recurring-{date}` for a virtual occurrence of a series and
 * `single-{timestamp}` for an occurrence detached into its own event.
 */
module Events {
  import opened Wrappers
  import opened Calendar
  import opened DateText

  datatype RepeatKind = NoRepeat | Daily | Weekly | Monthly | Yearly

  /** `repeat`: an absent `endDate` is None, an absent `exceptions` list is empty. */
  datatype RepeatInfo = RepeatInfo(kind: RepeatKind, interval: int, endDate: Option<Date>, exceptions: seq<Date>)

  datatype Event = Event(
    id: string,
    title: string,
    date: Date,
    startTime: string,
    endTime: string,
    description: string,
    location: string,
    category: string,
    repeat: RepeatInfo,
    notificationTime: int)

  /** `Partial<Event>`: each present field overrides the event's own. */
  datatype Patch = Patch(
    id: Option<string>,
    title: Option<string>,
    date: Option<Date>,
    startTime: Option<string>,
    endTime: Option<string>,
    description: Option<string>,
    location: Option<string>,
    category: Option<string>,
    repeat: Option<RepeatInfo>,
    notificationTime: Option<int>)

  /** The dates the engine reads are real dates. */
  predicate WellFormed(e: Event) {
    IsCalendarDate(e.date) && (e.repeat.endDate.Some? ==> IsCalendarDate(e.repeat.endDate.value))
  }

  const RecurringMarker: string := "-recurring-"

  function VirtualId(baseId: string, d: Date): string
    requires IsCalendarDate(d)
  {
    baseId + RecurringMarker + Format(d)
  }

  function SingleId(now: nat): string {
    "single-" + Pad(now, 1)
  }

  /** `{ ...base, id: virtual id, date }`: one virtual occurrence of the series `base`. */
  function Instance(base: Event, d: Date): Event
    requires IsCalendarDate(d)
  {
    base.(id := VirtualId(base.id, d), date := d)
  }

  /** The series with `d` appended to its exceptions. */
  function WithException(e: Event, d: Date): Event {
    e.(repeat := e.repeat.(exceptions := e.repeat.exceptions + [d]))
  }

  /** `{ ...e, ...patch }`. */
  function Overlay(e: Event, patch: Patch): Event {
    Event(
      patch.id.GetOr(e.id),
      patch.title.GetOr(e.title),
      patch.date.GetOr(e.date),
      patch.startTime.GetOr(e.startTime),
      patch.endTime.GetOr(e.endTime),
      patch.description.GetOr(e.description),
      patch.location.GetOr(e.location),
      patch.category.GetOr(e.category),
      patch.repeat.GetOr(e.repeat),
      patch.notificationTime.GetOr(e.notificationTime))
  }

  /** What a view shows of an event: its identity and its date. */
  function Keys(es: seq<Event>): (ks: seq<(string, Date)>)
    ensures |ks| == |es| && forall i :: 0 <= i < |es| ==> ks[i] == (es[i].id, es[i].date)
  {
    if es == [] then [] else [(es[0].id, es[0].date)] + Keys(es[1..])
  }

  lemma KeysAppend(a: seq<Event>, b: seq<Event>)
    ensures Keys(a + b) == Keys(a) + Keys(b)
  {
  }

  /** The keys dated other than `d`, in order. */
  function WithoutDate(ks: seq<(string, Date)>, d: Date): seq<(string, Date)> {
    if ks == [] then []
    else (if ks[0].1 == d then [] else [ks[0]]) + WithoutDate(ks[1..], d)
  }

  lemma {:induction false} WithoutDateAppend(a: seq<(string, Date)>, b: seq<(string, Date)>, d: Date)
    ensures WithoutDate(a + b, d) == WithoutDate(a, d) + WithoutDate(b, d)
  {
    if a != [] {
      assert (a + b)[1..] == a[1..] + b;
      WithoutDateAppend(a[1..], b, d);
    } else {
      assert a + b == b;
    }
  }
}
