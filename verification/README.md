# Recurring events of a calendar app, in Dafny

This project models the recurring-event engine of a small calendar application. The model covers four things:

- **Expansion.** A stored event may carry a repeat rule: daily, weekly, monthly or yearly, with an end date and a list of exception dates. `generateRecurringEvents` expands such a series into virtual occurrences. Each occurrence is a copy of the series, moved to its date, under the id `{seriesId}-recurring-{YYYY-MM-DD}`.
- **The view.** `getEventsForView` collects, for an inclusive date range, every stored event and the virtual occurrences that fall in the range.
- **The page.** `useFilteredEvents` picks the range: the Sunday-to-Saturday week or the month holding the current date. It then applies the search box to the view.
- **Detaching one occurrence.** `updateSingleRecurringEvent` and `deleteSingleRecurringEvent` add the occurrence's date to the series' exceptions. An update also appends a standalone `single-{timestamp}` event carrying the changes. The delete handler finds the series and the date by splitting the virtual id at `-recurring-`.

Modules:

- `Calendar`: proleptic Gregorian dates, day numbers, the day of the week, and the rollover that JavaScript's `new Date(y, m, d)` and `setDate` perform.
- `DateText`: `formatDate` and a parser for `YYYY-MM-DD`.
- `Text`: `includes`, `indexOf`, `lastIndexOf`, `split` and ASCII `toLowerCase`.
- `Events`: the event record, `Partial<Event>` patches, virtual and `single-` ids.
- `Recurrence`: the expansion, as a specification function and as the source's loop.
- `Views`: the view of a range, as a function and as the source's loop.
- `Detach`: the single-occurrence update and delete.
- `FilteredEvents`: week and month ranges, and the search filter.
- `VirtualIds`: routing a deletion by the id.
- `Scenarios`: the behaviours the unit tests exercise. Each is proved in general and then for the tests' own dates.

## Model

| member | source | states |
|---|---|---|
| Recurrence.GenerateRecurringEvents | src/utils/recurringEvents.ts:9-61 | The loop returns exactly the expansion of the series. It returns nothing for a non-repeating series, for one without an end date, and for one whose end date is before its start. |
| Recurrence.Occurrences | src/utils/recurringEvents.ts:23-58 | Every date emitted from step k on is a real calendar date. Termination rests on each step moving the candidate strictly later. |
| Recurrence.OccurrenceDates | src/utils/recurringEvents.ts:10-21 | The emitted dates of a series are real calendar dates. The guards on the kind, on a missing end date and on an end date before the start give none. |
| Recurrence.Instances | src/utils/recurringEvents.ts:53-57 | One event per date, in order: the series moved to that date under that date's virtual id. |
| Recurrence.CandidateZero | src/utils/recurringEvents.ts:26-36 | Step 0 of every kind is the anchor date itself. |
| Recurrence.CandidateIsDate | src/utils/recurringEvents.ts:26-36 | Every stepped date, after `Date` rollover, is a real calendar date. |
| Recurrence.DailyWeeklyCandidate | src/utils/recurringEvents.ts:28-31 | The daily candidate of step k is k days after the anchor. The weekly one is 7k days after it. |
| Recurrence.CandidateAdvances | src/utils/recurringEvents.ts:26-40 | Each step moves the candidate at least one day later, whatever the kind. So the loop reaches its break. |
| Recurrence.CandidateMonotone | src/utils/recurringEvents.ts:26-40 | Later steps give strictly later candidates. |
| Recurrence.FirstCandidateAfterAnchor | src/utils/recurringEvents.ts:23-36 | The loop's first candidate (step 1) is strictly after the anchor, so the series itself is never among its occurrences. |
| Recurrence.OccurrencesStep | src/utils/recurringEvents.ts:38-57 | One loop iteration below the end date emits the candidate exactly when it is accepted, then goes on with the next step. |
| Recurrence.OccurrencesBounds | src/utils/recurringEvents.ts:38-51 | Every emitted date passed the day-of-month and exception checks. It lies between the step's candidate and the end date. |
| Recurrence.OccurrencesComplete | src/utils/recurringEvents.ts:38-57 | Every accepted candidate of a later step that does not pass the end date is emitted. |
| Recurrence.OccurrenceDatesCharacterization | src/utils/recurringEvents.ts:9-61 | A date is emitted if and only if it is the accepted candidate of some step k >= 1 within the end date. |
| Recurrence.ExpansionCharacterization | src/utils/recurringEvents.ts:53-57 | An event is a virtual occurrence if and only if it is the series moved to an occurrence date under that date's virtual id. |
| Recurrence.OccurrenceDatesBounded | src/utils/recurringEvents.ts:19-51 | Each occurrence is after the anchor, on or before the end date, and not an exception. A monthly or yearly occurrence keeps the anchor's day of month. |
| Recurrence.OccurrenceDatesAscending | src/utils/recurringEvents.ts:23-58 | Occurrences come out in strictly increasing date order, so no date repeats. |
| Recurrence.ExpansionCopiesSeries | src/utils/recurringEvents.ts:53-57 | Every occurrence equals the series except for its id and date. In particular it keeps the series' repeat rule. |
| Recurrence.MonthlyCandidate | src/utils/recurringEvents.ts:32-33 | A monthly candidate keeps the anchor's day if and only if the target month has that many days. When it does, the candidate is that day of the target month. |
| Recurrence.YearlyCandidate | src/utils/recurringEvents.ts:34-35 | A yearly candidate keeps the anchor's day if and only if that year's month has it. When it does, the candidate is the anniversary. |
| Recurrence.DailyWeeklyCoverage | src/utils/recurringEvents.ts:28-57 | A daily series yields every non-excepted day after the anchor up to the end date. A weekly series yields every such day a whole number of weeks from the anchor. |
| Recurrence.IntervalIgnored | src/utils/recurringEvents.ts:15-36 | Changing `repeat.interval` changes neither the occurrence dates nor the occurrences' ids. |
| Recurrence.OccurrencesDependOnRule | src/utils/recurringEvents.ts:15-51 | The emitted dates depend only on the anchor, the kind, the end date and the exceptions. |
| Recurrence.RemoveDate | src/utils/recurringEvents.ts:48-51 | The result holds exactly the dates of the input other than the removed one. |
| Recurrence.OccurrencesWithException | src/utils/recurringEvents.ts:48-51 | Adding an exception date removes exactly that date from the emitted dates, and keeps the order of the rest. |
| Recurrence.ExpansionWithException | src/utils/recurringEvents.ts:48-51 | Adding an exception hides exactly the occurrence on that date. Every other occurrence keeps its id and date. |
| Views.InRangeOnly | src/utils/recurringEvents.ts:87-90 | The kept events are exactly the input events dated within the inclusive range. |
| Views.GetEventsForView | src/utils/recurringEvents.ts:70-96 | The loop over the stored events returns exactly the view of the range. |
| Views.ViewAppend | src/utils/recurringEvents.ts:77-93 | The view of a concatenation of stored lists is the concatenation of their views. |
| Views.EventViewMembership | src/utils/recurringEvents.ts:78-92 | An event shows for one stored event if and only if it is either of two things. It may be that event, in range and not among its own exceptions. Or it may be one of its virtual occurrences dated in range. |
| Views.ViewMembership | src/utils/recurringEvents.ts:77-93 | An event is in the view if and only if some stored event contributes it. |
| Views.ViewInRange | src/utils/recurringEvents.ts:81-90 | Everything the view shows is dated within the range. |
| Views.ExceptionHidesOnlyThatDate | src/utils/recurringEvents.ts:79-92 | Adding an exception date to a stored event removes from its share exactly the entries dated on it. That includes the event itself when it sits on that date. |
| Views.SingleEventView | src/utils/recurringEvents.ts:81-85 | A non-repeating event shows if and only if its date is in range and not among its own exceptions. |
| Detach.FindIndex | src/utils/recurringEvents.ts:109-110 | The result is the first position holding the id, or None when no event has it. |
| Detach.DeleteSingle | src/utils/recurringEvents.ts:134-150 | The list keeps its length. An unknown id leaves it unchanged. Otherwise only the first event with the id changes: the date is appended to its exceptions. |
| Detach.UpdateSingle | src/utils/recurringEvents.ts:102-128 | An unknown id gives the list back with no new event. Otherwise the list is the delete's list with the detached copy appended, and that copy is returned. |
| Detach.DeleteSingleRecurringEvent | src/utils/recurringEvents.ts:134-150 | The imperative version computes the same list as `DeleteSingle`. |
| Detach.UpdateSingleRecurringEvent | src/utils/recurringEvents.ts:102-128 | The imperative version computes the same pair as `UpdateSingle`. |
| Detach.DetachedCopyFields | src/utils/recurringEvents.ts:118-124 | The detached copy takes each field from the patch when given and from the series otherwise. It sits on the detached date, under a `single-` id, and does not repeat. |
| Detach.DetachedCopyView | src/utils/recurringEvents.ts:118-124 | The detached copy shows exactly on its own date. |
| Detach.DeleteSingleWellFormed | src/utils/recurringEvents.ts:143-147 | The delete keeps every stored event well formed. |
| Detach.DeleteSingleView | src/utils/recurringEvents.ts:134-150 | After a delete, the view's keys are those of the events before the series, the series' share without the deleted date, and those of the events after it. |
| Detach.UpdateSingleView | src/utils/recurringEvents.ts:102-128 | An update shows what the delete shows, plus the detached copy when its date is in range. |
| Detach.DetachKeepsOthers | src/utils/recurringEvents.ts:108-125 | An update grows the list by one. It leaves every other stored event as it was. The series becomes exactly itself with the date appended to its exceptions. The appended last entry is the detached copy of that series. |
| FilteredEvents.SearchFilter | src/hooks/useFilteredEvents.ts:37-42 | The kept events are exactly those matching the term, and there are no more of them than before. |
| FilteredEvents.WeekRangeSpec | src/hooks/useFilteredEvents.ts:13-23 | The week range runs from a Sunday to the Saturday six days later. It contains the current date and exactly the dates of the current date's week. |
| FilteredEvents.WeekRangeDays | src/hooks/useFilteredEvents.ts:14-20 | The first day is the current date's day-of-week count of days back. The last day is six days after it. Both are real dates. |
| FilteredEvents.WeekArith | src/hooks/useFilteredEvents.ts:14-20 | On day numbers, a day lies within the seven days from the Sunday before day c if and only if that Sunday is also its own. |
| FilteredEvents.MonthRangeSpec | src/hooks/useFilteredEvents.ts:24-29 | The month range runs from the 1st to the last day of the current month. It contains exactly that month's dates. |
| FilteredEvents.MonthLast | src/hooks/useFilteredEvents.ts:28 | Day 0 of the next month is the last day of the current month, leap Februaries included. |
| FilteredEvents.SearchFilterAppend | src/hooks/useFilteredEvents.ts:37-42 | Filtering a concatenation filters each part, so the filter keeps the view's order. |
| FilteredEvents.SearchFilterKeepsAll | src/hooks/useFilteredEvents.ts:37-42 | A term every event matches leaves the list unchanged. |
| FilteredEvents.MatchesIgnoresCase | src/hooks/useFilteredEvents.ts:39-41 | An upper-case term and its lower-case form match the same events. |
| FilteredEvents.MatchesEmptyTerm | src/hooks/useFilteredEvents.ts:39 | Every event matches the empty term through its title. |
| FilteredEvents.FilteredMembership | src/hooks/useFilteredEvents.ts:9-43 | An event is listed if and only if two things hold. Some stored event contributes it to the page's range. And the term is empty or the event matches it. |
| FilteredEvents.EmptyTermListsView | src/hooks/useFilteredEvents.ts:31-35 | An empty term lists the view of the range, in order. |
| FilteredEvents.FilteredDates | src/hooks/useFilteredEvents.ts:9-43 | Every listed event is dated in the current date's week, or in its month. |
| VirtualIds.SplitAfter | src/hooks/useEventOperations.ts:74-75 | The first-marker split of `b + "-recurring-" + rest` yields `b` and `rest`. This needs `b` to hold no marker and not to end in `-recurring`. |
| VirtualIds.VirtualIdRoundTrip | src/hooks/useEventOperations.ts:74-77 | The delete handler's split recovers the series' id and the rendered date from a virtual id, when the series' id holds no marker and does not end in `-recurring`. |
| VirtualIds.RecurringSuffixMisroutes | src/hooks/useEventOperations.ts:75 | For a series id ending in `-recurring`, the split yields a different id. The date text it yields is `recurring-YYYY-MM-DD`, which is not a date. |
| VirtualIds.VirtualIdRoundTripLast | src/utils/recurringEvents.ts:55 | Splitting at the last marker recovers the series' id and the rendered date for every series id. |
| VirtualIds.VirtualIdDate | src/utils/recurringEvents.ts:48-55 | The date text read back from a virtual id parses to the occurrence's date. |
| VirtualIds.RoutesAgree | src/hooks/useEventOperations.ts:74-75 | Wherever the first-marker split is right, both splits agree. |
| VirtualIds.SingleIdIsStored | src/hooks/useEventOperations.ts:74 | A detached copy's `single-` id holds no marker, so deleting it goes to the stored-event path. |
| VirtualIds.DeleteByVirtualId | src/hooks/useEventOperations.ts:73-80 | For the corrected handler (see Findings), which splits at the last marker, deleting by any virtual id deletes that occurrence of that series, whatever the series' id. |
| VirtualIds.DeleteShownOccurrence | src/hooks/useEventOperations.ts:73-80 | For the corrected handler (see Findings), which splits at the last marker, deleting an occurrence the calendar shows by its own id adds its date to its series' exceptions, whatever the series' id. |
| VirtualIds.DeleteShownOccurrenceAsWritten | src/hooks/useEventOperations.ts:73-80 | The handler as written, splitting at the first marker, does the same when the series' id holds no `-recurring-` and does not end in `-recurring`. The Findings row shows the other ids fail. |
| DateText.FormatParseRoundTrip | src/utils/recurringEvents.ts:48 | Reading back `formatDate`'s text gives the date, for four-digit years. |
| DateText.ParseFormatRoundTrip | src/utils/recurringEvents.ts:48 | Every text the parser accepts is the rendering of the date it yields. |
| DateText.FormatInjective | src/utils/recurringEvents.ts:48-49 | Distinct dates render distinctly, so comparing exception texts compares dates. |
| Calendar.DayOfWeek | src/hooks/useFilteredEvents.ts:14 | `getDay()` lies between 0 (Sunday) and 6. |
| Calendar.MakeDateSpec | src/utils/recurringEvents.ts:29-35 | `new Date(y, m, d)` with any month index and day is a real date. Its day number is the first of the normalised month plus d - 1. |
| Calendar.DayNumberOrder | src/utils/recurringEvents.ts:38-40 | Comparing day numbers is comparing dates: earlier if and only if earlier in the calendar, equal if and only if the same date. |
| Calendar.SetDate | src/hooks/useFilteredEvents.ts:16-20 | `setDate(day)` gives a real date that many days from the 1st of the month. |
| Calendar.MakeDateDayZero | src/hooks/useFilteredEvents.ts:28 | Day 0 of a month is the last day of the previous month. |
| Scenarios.MondayAugust25 | src/__tests__/unit/recurringEvents.spec.ts:105 | 2025-08-25 is a Monday. |
| Scenarios.JanuaryPlusOneMonth | src/__tests__/unit/recurringEvents.spec.ts:130-142 | January 31st plus one month rolls over to March 3rd, so the monthly series skips February. |
| Scenarios.WholeSeriesView | src/utils/recurringEvents.ts:77-93 | A range holding the whole series shows the series followed by all of its occurrences. |
| Scenarios.OneDayView | src/utils/recurringEvents.ts:77-93 | A one-day view of a series, on a day other than its own, shows as many events as the series has occurrences on that day. |
| Scenarios.DailyCount | src/utils/recurringEvents.ts:28-29 | A daily series with no exceptions emits one date per day from step k to the end date. |
| Scenarios.DailyView | src/__tests__/unit/recurringEvents.spec.ts:93-101 | A daily series viewed from its start to its end date shows one event per day, each with the series' title and time. |
| Scenarios.DailyStandupView | src/__tests__/unit/recurringEvents.spec.ts:93-101 | The daily series 2025-08-25 to 2025-08-30 shows six events. |
| Scenarios.WeeklyDates | src/__tests__/unit/recurringEvents.spec.ts:192-201 | A weekly series from 2025-08-25, ending on 2025-09-08 or any day up to 2025-09-14, yields exactly 2025-09-01 and 2025-09-08. |
| Scenarios.WeeklyView | src/__tests__/unit/recurringEvents.spec.ts:105-115 | The weekly series up to 2025-09-08 shows the series, then 2025-09-01, then 2025-09-08. |
| Scenarios.EndBeforeStart | src/__tests__/unit/recurringEvents.spec.ts:203-210 | An end date before the start yields no occurrences. |
| Scenarios.LeapCandidate | src/utils/recurringEvents.ts:34-35 | From February 29th of a leap year, steps 1 to 3 and 5 roll over to March 1st, and step 4 lands on February 29th. |
| Scenarios.LeapOnce | src/utils/recurringEvents.ts:34-46 | A yearly February 29th series ending in the next leap year's span yields only the next leap day. |
| Scenarios.LeapDayView | src/__tests__/unit/recurringEvents.spec.ts:156-164 | The 2024-02-29 yearly series viewed over 2025-2028 shows only 2028-02-29. |
| Scenarios.ExceptionDateGone | src/utils/recurringEvents.ts:143-147 | After a delete, the deleted date is no longer an occurrence. |
| Scenarios.DeletedDayEmpty | src/__tests__/unit/recurringEvents.spec.ts:242-251 | After deleting an occurrence, a one-day view of its date is empty. |
| Scenarios.OtherDayKept | src/__tests__/unit/recurringEvents.spec.ts:253-256 | After deleting one occurrence of a daily or weekly series, every other covered day still shows one event. |
| Scenarios.DailyStandupDelete | src/__tests__/unit/recurringEvents.spec.ts:242-257 | Deleting 2025-08-27 of the daily series empties that day and keeps one event on 2025-08-28. |
| Scenarios.UpdateOneDay | src/__tests__/unit/recurringEvents.spec.ts:215-237 | Changing one occurrence returns a non-repeating copy with the new title, and that copy alone shows on that day. |
| Scenarios.WeeklyReportUpdate | src/__tests__/unit/recurringEvents.spec.ts:215-237 | Changing 2025-09-01 of the weekly series: that day shows only the detached copy. |

## Left out

- Time of day and time zones. Dates are whole calendar days, compared by day number. The source parses `YYYY-MM-DD` with `new Date(string)` as UTC midnight, but builds the page's range in local time. `FilteredEvents.WeekRangeSpec`, `FilteredEvents.MonthRangeSpec`, `FilteredEvents.FilteredMembership` and `FilteredEvents.FilteredDates` hold only on whole days. Two consequences are not captured:
  - The week range's first day keeps the current date's time of day (src/hooks/useFilteredEvents.ts:16-17). An event on that Sunday parses to midnight UTC, so it fails `eventDate >= viewStartDate` whenever the current time of day is later than that instant (src/utils/recurringEvents.ts:78-81). This happens even in UTC, so such events drop out of the week view.
  - The month range runs from local midnight on the 1st to local midnight on the last day (src/hooks/useFilteredEvents.ts:27-28). Outside UTC it drops the last day's events east of UTC and the 1st's events west of it.
- Event dates, end dates and exception entries are `Date` values, not strings. `DateText.FormatInjective` shows that comparing their `formatDate` texts compares the dates. Years outside 0-9999 are not modelled.
- A series without a `repeat` object: the model always has one, with kind `NoRepeat` standing for `type: 'none'`. An absent `exceptions` list is the empty one.
- Malformed dates. `Recurrence.GenerateRecurringEvents`, `Recurrence.OccurrenceDates` and `Recurrence.Occurrences` require `WellFormed`, which excludes an event `date` or `repeat.endDate` that does not parse. On such input the source never stops: `new Date(..)` gives NaN, so the guard at src/utils/recurringEvents.ts:19 is false and the break at line 38 never fires. A daily or weekly series then pushes `NaN-NaN-NaN` entries without end. The model's termination argument does not cover this case.
- `Date.now()` in the `single-` id is the parameter `now`.
- `Patch`: an absent field is `None` and keeps the series' value. A JavaScript spread of `updatedInfo` would also copy a key explicitly set to `undefined` (src/utils/recurringEvents.ts:118-120). The model has no such key.
- `toLowerCase` is modelled on ASCII letters only. Unicode case mapping is not modelled.
- `repeat.interval` is read by nothing in the source. The model keeps it and proves it has no effect (`Recurrence.IntervalIgnored`). The spacing is always one unit.
- `updateSingleRecurringEvent` on a stored event without a `repeat` object would throw. The model has no such event.
- `VirtualIds.DeleteByRoute` uses the last-marker split. With a date text that does not parse, it leaves the list unchanged. The source instead appends that text to the exceptions, where it matches no occurrence. The list differs, but the view does not.
- The rest of `deleteEvent` (the HTTP delete, refetch and snackbar) and all React state (`useState`, `useMemo` caching, `setEvents`) are left out. Only the routing decision and the delete it calls are modelled.
- Calls into `src/utils/dateUtils.ts` other than `formatDate`: that file is not part of this model. `formatDate` is modelled as `DateText.Format`, zero-padded `YYYY-MM-DD`.
- The monthly tests (2025-08-01 to 2025-11, and the 2025-01-31 series) and the yearly 2025-08-25 test are not instantiated on their concrete dates. The general `Recurrence.MonthlyCandidate`, `Recurrence.YearlyCandidate`, `Recurrence.OccurrenceDatesCharacterization` and `Scenarios.JanuaryPlusOneMonth` state their behaviour.
- The icon tests (lines 170-187 of the unit tests) are covered in general: `Recurrence.ExpansionCopiesSeries` shows occurrences keep the repeat rule, and `Views.SingleEventView` covers a non-repeating event. They are not instantiated on their dates.

## Findings

| source | as written | input that shows it | evidently intended | confidence | as-written member | corrected member |
|---|---|---|---|---|---|---|
| src/hooks/useEventOperations.ts:75 | `id.split('-recurring-')` takes the text before the FIRST marker as the series id | a series with id `a-recurring`: its occurrence id `a-recurring-recurring-2025-09-01` splits into `a` and `recurring-2025-09-01`, so the delete finds no series `a` (or the wrong one) and the date is not a date | split at the LAST marker, which recovers the series id and the date for every series id; `VirtualIds.DeleteByRoute` routes deletions this way | not executed | VirtualIds.RecurringSuffixMisroutes | VirtualIds.VirtualIdRoundTripLast |
