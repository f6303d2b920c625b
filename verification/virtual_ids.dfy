/**
 * Reading a virtual id back. An occurrence of a series is shown under the id
 * `{seriesId}-recurring-{YYYY-MM-DD}`; deleting an event whose id contains the marker
 * splits the id on it and treats the first two pieces as the series' id and the date of
 * the occurrence, and any other id names a stored event.
 */
module VirtualIds {
  import opened Wrappers
  import opened Calendar
  import opened DateText
  import opened Events
  import opened Text
  import opened Recurrence
  import opened Detach

  /** Where a deletion goes: one occurrence of a series, or a stored event. */
  datatype Route = Occurrence(seriesId: string, dateText: string) | Stored(id: string)

  predicate EndsWith(s: string, suffix: string) {
    |suffix| <= |s| && s[|s| - |suffix|..] == suffix
  }

  /** The marker with its last character dropped: a series id ending in it confuses the split. */
  const MarkerStem: string := "-recurring"

  lemma MarkerChars()
    ensures |RecurringMarker| == 11 && RecurringMarker[0] == '-' && RecurringMarker[1] == 'r'
    ensures RecurringMarker[10] == '-' && RecurringMarker[..10] == MarkerStem
    ensures forall t :: 1 <= t <= 9 ==> RecurringMarker[t] != '-'
  {
  }

  lemma {:induction false} ContainsIndex(s: string, p: string)
    ensures Contains(s, p) <==> IndexFrom(s, p, 0).Some?
  {
    ContainsOccurs(s, p);
  }

  /** `id.includes('-recurring-')`, then `id.split('-recurring-')` taking the first two pieces. */
  function RouteDelete(id: string): Route {
    if Contains(id, RecurringMarker) then
      ContainsIndex(id, RecurringMarker);
      var pieces := Split(id, RecurringMarker);
      Occurrence(pieces[0], pieces[1])
    else Stored(id)
  }

  /** The same routing, splitting at the LAST marker. */
  function RouteDeleteLast(id: string): Route {
    match LastIndexOf(id, RecurringMarker)
    case None => Stored(id)
    case Some(i) => Occurrence(id[..i], id[i + |RecurringMarker|..])
  }

  // ---------------------------------------------------------------------------------------
  // Where the marker occurs

  /** Text with no `-` followed by `r` holds no marker. */
  predicate NoDashR(s: string) {
    forall i :: 0 <= i < |s| - 1 ==> !(s[i] == '-' && s[i + 1] == 'r')
  }

  lemma NoMarkerIn(s: string)
    requires NoDashR(s)
    ensures forall j :: !OccursAt(s, RecurringMarker, j)
    ensures !Contains(s, RecurringMarker)
    ensures Split(s, RecurringMarker) == [s]
  {
    MarkerChars();
    forall j
      ensures !OccursAt(s, RecurringMarker, j)
    {
      if 0 <= j && j + 11 <= |s| {
        var w := s[j..j + 11];
        if s[j] == '-' {
          assert w[1] == s[j + 1] != 'r';
        } else {
          assert w[0] == s[j];
        }
      }
    }
    ContainsIndex(s, RecurringMarker);
  }

  /** A rendered date holds no `r` at all. */
  lemma FormatNoDashR(d: Date)
    requires IsCalendarDate(d)
    ensures NoDashR(Format(d)) && (forall i :: 0 <= i < |Format(d)| ==> Format(d)[i] != 'r')
  {
    FormatAlphabet(d);
  }

  lemma SliceInPrefix(b: string, rest: string, j: nat, n: nat)
    requires j + n <= |b|
    ensures (b + rest)[j..j + n] == b[j..j + n]
  {
  }

  /** A dash at positions 1..9 rules out the marker. */
  lemma DashInside(w: string, t: int)
    requires |w| == 11 && 1 <= t <= 9 && w[t] == '-'
    ensures w != RecurringMarker
  {
    MarkerChars();
  }

  /** A marker cannot start at index `j` of `b + rest` when none starts there in `b`, the
      ten characters from `j` are not the stem, and `rest` starts with a dash. */
  lemma NoMarkerAt(b: string, rest: string, j: int)
    requires |rest| >= 1 && rest[0] == '-' && 0 <= j < |b|
    requires j + 11 <= |b| ==> b[j..j + 11] != RecurringMarker
    requires j + 10 == |b| ==> b[j..] != MarkerStem
    ensures !OccursAt(b + rest, RecurringMarker, j)
  {
    if j + 11 <= |b| {
      SliceInPrefix(b, rest, j, 11);
    } else if j + 11 <= |b| + |rest| {
      var w := (b + rest)[j..j + 11];
      var t := |b| - j;
      assert w[t] == rest[0];
      if t < 10 {
        DashInside(w, t);
      } else {
        SliceInPrefix(b, rest, j, 10);
        assert w[..10] == b[j..];
        StemInside(w);
      }
    }
  }

  /** A window whose first ten characters are not the stem is not the marker. */
  lemma StemInside(w: string)
    requires |w| == 11 && w[..10] != MarkerStem
    ensures w != RecurringMarker
  {
    MarkerChars();
  }

  lemma NoMarkerBefore(b: string, rest: string)
    requires !Contains(b, RecurringMarker) && !EndsWith(b, MarkerStem)
    requires |rest| >= 1 && rest[0] == '-'
    ensures forall j :: 0 <= j < |b| ==> !OccursAt(b + rest, RecurringMarker, j)
  {
    ContainsOccurs(b, RecurringMarker);
    forall j | 0 <= j < |b|
      ensures !OccursAt(b + rest, RecurringMarker, j)
    {
      assert !OccursAt(b, RecurringMarker, j);
      NoMarkerAt(b, rest, j);
    }
  }

  /** In `b + marker + rest`, the first marker is the one after `b`. */
  lemma FirstMarker(b: string, rest: string)
    requires !Contains(b, RecurringMarker) && !EndsWith(b, MarkerStem)
    ensures IndexFrom(b + RecurringMarker + rest, RecurringMarker, 0) == Some(|b|)
  {
    var s := b + RecurringMarker + rest;
    MarkerChars();
    assert s == b + (RecurringMarker + rest);
    NoMarkerBefore(b, RecurringMarker + rest);
    assert s[|b|..|b| + 11] == RecurringMarker;
    assert OccursAt(s, RecurringMarker, |b|);
  }

  /** In `b + marker + rest`, the last marker is the one after `b` when `rest` has no `r`. */
  lemma LastMarker(b: string, rest: string)
    requires forall i :: 0 <= i < |rest| ==> rest[i] != 'r'
    ensures LastIndexOf(b + RecurringMarker + rest, RecurringMarker) == Some(|b|)
  {
    var s := b + RecurringMarker + rest;
    MarkerChars();
    assert s[|b|..|b| + 11] == RecurringMarker;
    assert OccursAt(s, RecurringMarker, |b|);
    forall j | |b| < j
      ensures !OccursAt(s, RecurringMarker, j)
    {
      if j + 11 <= |s| {
        var t := j - |b|;
        var w := s[j..j + 11];
        if t < 10 {
          assert w[0] == RecurringMarker[t];
        } else {
          assert w[1] == rest[t - 10];
        }
      }
    }
  }

  /** Splitting `b + marker + rest` at its first marker gives `b` and `rest`. */
  lemma SplitAfter(b: string, rest: string)
    requires !Contains(b, RecurringMarker) && !EndsWith(b, MarkerStem) && NoDashR(rest)
    ensures RouteDelete(b + RecurringMarker + rest) == Occurrence(b, rest)
  {
    var id := b + RecurringMarker + rest;
    FirstMarker(b, rest);
    ContainsIndex(id, RecurringMarker);
    NoMarkerIn(rest);
    assert id[..|b|] == b;
    assert id[|b| + |RecurringMarker|..] == rest;
  }

  // ---------------------------------------------------------------------------------------
  // Round trips

  /** Splitting a virtual id gives back the series' id and the rendered date whenever the
      series' id holds no marker and does not end with `-recurring`. */
  lemma VirtualIdRoundTrip(baseId: string, d: Date)
    requires IsCalendarDate(d)
    requires !Contains(baseId, RecurringMarker) && !EndsWith(baseId, MarkerStem)
    ensures RouteDelete(VirtualId(baseId, d)) == Occurrence(baseId, Format(d))
  {
    FormatNoDashR(d);
    SplitAfter(baseId, Format(d));
  }

  /** A series id ending in `-recurring` holds no marker when its stem holds none. */
  lemma StemSuffixNoMarker(stem: string)
    requires !Contains(stem, RecurringMarker) && !EndsWith(stem, MarkerStem)
    ensures !Contains(stem + MarkerStem, RecurringMarker)
  {
    var baseId := stem + MarkerStem;
    NoMarkerBefore(stem, MarkerStem);
    forall j
      ensures !OccursAt(baseId, RecurringMarker, j)
    {
      if 0 <= j && j + 11 <= |baseId| {
        assert j < |stem|;
      }
    }
    ContainsOccurs(baseId, RecurringMarker);
  }

  /** What follows the first marker of such an id: `recurring-` and the rendered date. */
  lemma MisroutedTail(d: Date)
    requires IsCalendarDate(d)
    ensures NoDashR("recurring-" + Format(d))
    ensures Parse("recurring-" + Format(d)).None?
  {
    var tail := "recurring-" + Format(d);
    FormatNoDashR(d);
    forall i | 0 <= i < |tail| - 1
      ensures !(tail[i] == '-' && tail[i + 1] == 'r')
    {
      if i >= 9 {
        assert tail[i + 1] == Format(d)[i - 9];
      }
    }
    assert !IsDigit(tail[0]);
  }

  /** A series id ending in `-recurring` holds no marker, yet its virtual ids are split one
      marker too early: the deletion goes to another series' id, with a date text that does
      not read as a date. */
  lemma RecurringSuffixMisroutes(stem: string, d: Date)
    requires IsCalendarDate(d)
    requires !Contains(stem, RecurringMarker) && !EndsWith(stem, MarkerStem)
    ensures !Contains(stem + MarkerStem, RecurringMarker)
    ensures RouteDelete(VirtualId(stem + MarkerStem, d)) == Occurrence(stem, "recurring-" + Format(d))
    ensures RouteDelete(VirtualId(stem + MarkerStem, d)) != Occurrence(stem + MarkerStem, Format(d))
    ensures Parse("recurring-" + Format(d)).None?
  {
    StemSuffixNoMarker(stem);
    MisroutedTail(d);
    assert VirtualId(stem + MarkerStem, d) == stem + RecurringMarker + ("recurring-" + Format(d));
    SplitAfter(stem, "recurring-" + Format(d));
    assert |stem| != |stem + MarkerStem|;
  }

  /** Splitting at the last marker gives back the series' id and the rendered date for every
      series id. */
  lemma VirtualIdRoundTripLast(baseId: string, d: Date)
    requires IsCalendarDate(d)
    ensures RouteDeleteLast(VirtualId(baseId, d)) == Occurrence(baseId, Format(d))
  {
    var id := VirtualId(baseId, d);
    FormatNoDashR(d);
    LastMarker(baseId, Format(d));
    assert id[..|baseId|] == baseId;
    assert id[|baseId| + |RecurringMarker|..] == Format(d);
  }

  /** The date text read back from a virtual id is the occurrence's date (four-digit years). */
  lemma VirtualIdDate(baseId: string, d: Date)
    requires IsCalendarDate(d) && 0 <= d.year <= 9999
    ensures RouteDeleteLast(VirtualId(baseId, d)).Occurrence?
    ensures Parse(RouteDeleteLast(VirtualId(baseId, d)).dateText) == Some(d)
  {
    VirtualIdRoundTripLast(baseId, d);
    FormatParseRoundTrip(d);
  }

  /** Both readings agree wherever the split at the first marker is right. */
  lemma RoutesAgree(baseId: string, d: Date)
    requires IsCalendarDate(d)
    requires !Contains(baseId, RecurringMarker) && !EndsWith(baseId, MarkerStem)
    ensures RouteDelete(VirtualId(baseId, d)) == RouteDeleteLast(VirtualId(baseId, d))
  {
    VirtualIdRoundTrip(baseId, d);
    VirtualIdRoundTripLast(baseId, d);
  }

  /** A detached copy's `single-` id holds no marker, so its deletion goes to the stored event. */
  lemma SingleIdIsStored(now: nat)
    ensures RouteDelete(SingleId(now)) == Stored(SingleId(now))
    ensures RouteDeleteLast(SingleId(now)) == Stored(SingleId(now))
    ensures forall events :: DeleteByRoute(events, SingleId(now)).None?
  {
    var id := SingleId(now);
    PadDigits(now, 1);
    assert NoDashR(id) by {
      forall i | 0 <= i < |id| - 1
        ensures !(id[i] == '-' && id[i + 1] == 'r')
      {
        if i >= 6 {
          assert id[i + 1] == Pad(now, 1)[i - 6];
        }
      }
    }
    NoMarkerIn(id);
    assert LastIndexOf(id, RecurringMarker).None?;
  }

  // ---------------------------------------------------------------------------------------
  // The recurring branch of `deleteEvent`, read with the last marker

  /** Where a routed deletion leaves the stored list: one occurrence of the named series is
      deleted when the date text reads as a date; None stands for the other branch, which
      deletes a stored event on the server. */
  function DeleteVia(events: seq<Event>, route: Route): Option<seq<Event>> {
    match route
    case Stored(_) => None
    case Occurrence(seriesId, dateText) =>
      match Parse(dateText)
      case Some(d) => Some(DeleteSingle(events, seriesId, d))
      case None => Some(events)
  }

  /** `deleteEvent` as written: the split at the first marker. */
  function DeleteEvent(events: seq<Event>, id: string): Option<seq<Event>> {
    DeleteVia(events, RouteDelete(id))
  }

  /** `deleteEvent` with the split at the last marker. */
  function DeleteByRoute(events: seq<Event>, id: string): Option<seq<Event>> {
    DeleteVia(events, RouteDeleteLast(id))
  }

  /** With the last-marker split, deleting by a virtual id deletes that occurrence of that
      series, whatever the series' id is. */
  lemma DeleteByVirtualId(events: seq<Event>, baseId: string, d: Date)
    requires IsCalendarDate(d) && 0 <= d.year <= 9999
    ensures DeleteByRoute(events, VirtualId(baseId, d)) == Some(DeleteSingle(events, baseId, d))
  {
    VirtualIdRoundTripLast(baseId, d);
    FormatParseRoundTrip(d);
    var route := RouteDeleteLast(VirtualId(baseId, d));
    assert route.seriesId == baseId && Parse(route.dateText) == Some(d);
  }

  /** With the last-marker split, deleting an occurrence the calendar shows, by its own id,
      adds its date to its series' exceptions. */
  lemma DeleteShownOccurrence(events: seq<Event>, series: Event, x: Event)
    requires WellFormed(series) && x in Expansion(series) && 0 <= x.date.year <= 9999
    ensures DeleteByRoute(events, x.id) == Some(DeleteSingle(events, series.id, x.date))
  {
    ExpansionCharacterization(series, x);
    DeleteByVirtualId(events, series.id, x.date);
  }

  /** The handler as written does the same for a series whose id holds no marker and does not
      end in `-recurring`. */
  lemma DeleteShownOccurrenceAsWritten(events: seq<Event>, series: Event, x: Event)
    requires WellFormed(series) && x in Expansion(series) && 0 <= x.date.year <= 9999
    requires !Contains(series.id, RecurringMarker) && !EndsWith(series.id, MarkerStem)
    ensures DeleteEvent(events, x.id) == Some(DeleteSingle(events, series.id, x.date))
  {
    ExpansionCharacterization(series, x);
    RoutesAgree(series.id, x.date);
    DeleteByVirtualId(events, series.id, x.date);
  }
}
