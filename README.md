# Meeting query over one day of minutes

This project models the meeting-scheduling query of the portfolio project. A
day has 24 * 60 = 1440 minutes. The query is given the day's events (each with
a time range and a set of attendees) and a meeting request (the required
attendees and a duration in minutes). It returns the time ranges in which the
meeting can be held.

The query works in two phases, and the model keeps both as imperative Dafny
over an `array<bool>` of 1440 entries:

1. **Marking.** `FindMeetingQuery.Query` walks the events. For each event, it
   walks the required attendees and stops at the first one who goes to the
   event. Only then does it call `FindMeetingQuery.AddUnavailableMinutes`,
   which sets the event's minutes busy. A range that starts before midnight
   or whose last minute is past the end of the day is skipped whole.
2. **Scanning.** `FindMeetingQuery.CheckForAvailableTimeSlots` walks the
   array once. It keeps the Java method's state: `inTimeRange`,
   `timeRangeStart`, `timeRangeEnd` and the growing list of slots.

Each method is proved against a specification function:
- `BusyMinutes.Busy` folds the events into the busy minutes.
- `FreeRuns.Slots` states the scan run by run. Busy minutes are passed over,
  and a free minute opens a run that lasts up to the next busy minute.

The lemmas beside these functions state what the query promises:
- which minutes are busy;
- that the slots are free, ordered and disjoint;
- which runs are reported.

The modules follow the two phases:

| file | module | contents |
|---|---|---|
| calendar.dfy | Calendar | `TimeRange`, `Event`, `MeetingRequest`, `FromStartEnd` |
| busy_minutes.dfy | BusyMinutes | the marking phase as a function, and its lemmas |
| free_runs.dfy | FreeRuns | the scanning phase run by run, and its lemmas |
| find_meeting_query.dfy | FindMeetingQuery | the three Java methods, and the scan's loop invariant |
| scenarios.dfy | Scenarios | concrete days worked out from the lemmas |

## Where the code and its own comments differ

The model follows the code. The comments in `FindMeetingQuery.java` promise
more than the code does in two places:

- `query` is said to find all the available time slots (`walkthroughs/week-5-tdd/project/src/main/java/com/google/sps/FindMeetingQuery.java:29`), the
  time slots of the day in which the meeting can be held (`walkthroughs/week-5-tdd/project/src/main/java/com/google/sps/FindMeetingQuery.java:36`).
- A closed run is said to be added when its duration is greater than the
  one required (`walkthroughs/week-5-tdd/project/src/main/java/com/google/sps/FindMeetingQuery.java:100-101`). The code compares with `>=` (`walkthroughs/week-5-tdd/project/src/main/java/com/google/sps/FindMeetingQuery.java:104`),
  so a run exactly as long as the meeting is added too.

The code differs from these comments as follows.

- **The run at the end of the day is never checked against the duration**
  (`walkthroughs/week-5-tdd/project/src/main/java/com/google/sps/FindMeetingQuery.java:110-113`). It is reported even when it is shorter than the
  meeting. `FreeRuns.TrailingRunAlwaysReported` states this.
- **The last minute of a one-minute run is stale** (`walkthroughs/week-5-tdd/project/src/main/java/com/google/sps/FindMeetingQuery.java:93-99`).
  `timeRangeEnd` is only updated from a run's second minute on. A run of
  one minute is therefore reported with the last minute remembered from an
  earlier run, or 0 if there was none. `FreeRuns.LastExtended` gives that
  minute for every point of the day.
  - A one-minute run closed by a busy minute is reported exactly when that
    remembered minute makes it long enough. It is then reported as
    `TimeRange(s, remembered + 1)` (`FreeRuns.OneMinuteRunReportedWithStaleEnd`).
  - For a meeting of one minute or more, such a run is dropped unless it is
    minute 0 and the meeting lasts one minute
    (`FreeRuns.OneMinuteRunReportedIff`). A free minute in which the
    meeting could be held is then not among the slots.
  - For a meeting of zero minutes, such a run can be reported as a range
    that holds no minute. With minute 0 busy, minute 1 free and minute 2
    busy, the slot is the empty `TimeRange(1, 1)`
    (`FreeRuns.EmptySlotForZeroDuration`).
  - A one-minute run in minute 1439 is reported as
    `TimeRange(1439, remembered + 1)` (`FreeRuns.TrailingRunAlwaysReported`).
    Its end does not come after its start (`FreeRuns.SlotsShape`). With
    every other minute busy, it is `TimeRange(1439, 1)`
    (`FreeRuns.OnlyLastMinuteFree`).

In the scan method, the model keeps this behaviour through a ghost variable
`stale`. It holds the value `timeRangeEnd` had when the current run opened.

A duration of zero or less is not rejected by the code: the scan runs with it
as with any other duration. The model does the same. The shape lemma
`FreeRuns.SlotsShape` is stated for durations of at least one minute.

## Model

| member | source | states |
|---|---|---|
| FindMeetingQuery.Query | walkthroughs/week-5-tdd/project/src/main/java/com/google/sps/FindMeetingQuery.java:38-58 | The result is the scan of the minutes made busy by the events that some required attendee goes to. A meeting longer than a day gets no slot. With no relevant event, and a duration of at most a day, the whole day [0, 1440) is the one slot. |
| FindMeetingQuery.AddUnavailableMinutes | walkthroughs/week-5-tdd/project/src/main/java/com/google/sps/FindMeetingQuery.java:65-70 | A range that starts before minute 0, or whose last minute is after minute 1439, leaves the array unchanged. Otherwise exactly the minutes in [start, end) become busy, and every other minute keeps its old value. No minute is ever freed. |
| FindMeetingQuery.CheckForAvailableTimeSlots | walkthroughs/week-5-tdd/project/src/main/java/com/google/sps/FindMeetingQuery.java:79-116 | The slots the minute-by-minute scan emits are exactly the run-by-run slots `FreeRuns.Slots` of the array's contents. This includes the early empty result for a meeting longer than a day. |
| FindMeetingQuery.ScanOpen | walkthroughs/week-5-tdd/project/src/main/java/com/google/sps/FindMeetingQuery.java:93-95 | A free minute after a busy one (or at minute 0) opens a run there, and the scan invariant is kept. |
| FindMeetingQuery.ScanExtend | walkthroughs/week-5-tdd/project/src/main/java/com/google/sps/FindMeetingQuery.java:98-99 | A further free minute becomes the run's remembered last minute, and the scan invariant is kept. |
| FindMeetingQuery.ScanClose | walkthroughs/week-5-tdd/project/src/main/java/com/google/sps/FindMeetingQuery.java:102-106 | A busy minute after a run closes it. The run is appended only when its remembered length reaches the duration. What has been emitted, followed by the slots of the later runs, is still the whole result. |
| FindMeetingQuery.ScanSkip | walkthroughs/week-5-tdd/project/src/main/java/com/google/sps/FindMeetingQuery.java:90-107 | A busy minute outside a run changes nothing, and the scan invariant is kept. |
| FindMeetingQuery.ScanFinish | walkthroughs/week-5-tdd/project/src/main/java/com/google/sps/FindMeetingQuery.java:110-113 | After minute 1439, an open run is appended with no length check, which completes the result. |
| FindMeetingQuery.SlotsAvoidRelevantEvents | walkthroughs/week-5-tdd/project/src/main/java/com/google/sps/FindMeetingQuery.java:43-55 | No minute of a reported slot lies inside an in-domain event that some required attendee goes to. |
| BusyMinutes.Busy | walkthroughs/week-5-tdd/project/src/main/java/com/google/sps/FindMeetingQuery.java:39-52 | The busy-minute array has 1440 minutes. |
| BusyMinutes.BusyIff | walkthroughs/week-5-tdd/project/src/main/java/com/google/sps/FindMeetingQuery.java:43-52 | A minute is busy if and only if some event blocks it. Such an event has a required attendee, a range inside the day, and covers that minute. |
| BusyMinutes.IrrelevantEventIgnored | walkthroughs/week-5-tdd/project/src/main/java/com/google/sps/FindMeetingQuery.java:44-51 | Removing an event that no required attendee goes to leaves the busy minutes unchanged. |
| BusyMinutes.EventOrderIrrelevant | walkthroughs/week-5-tdd/project/src/main/java/com/google/sps/FindMeetingQuery.java:43-52 | Events in any order, with the same multiset, give the same busy minutes. |
| BusyMinutes.NoRelevantEventAllFree | walkthroughs/week-5-tdd/project/src/main/java/com/google/sps/FindMeetingQuery.java:39-52 | With no relevant event, every minute of the day is free. |
| FreeRuns.RunEnd | walkthroughs/week-5-tdd/project/src/main/java/com/google/sps/FindMeetingQuery.java:90-103 | The first busy minute at or after a free minute. Every minute before it is free, and it is busy unless it is the end of the day. |
| FreeRuns.SkipBusy | walkthroughs/week-5-tdd/project/src/main/java/com/google/sps/FindMeetingQuery.java:90-107 | Busy minutes outside a run contribute no slot. |
| FreeRuns.CloseRun | walkthroughs/week-5-tdd/project/src/main/java/com/google/sps/FindMeetingQuery.java:98-106 | A run closed by a busy minute contributes its checked slot, and the scan goes on after that minute with the run's remembered last minute. |
| FreeRuns.SlotsShape | walkthroughs/week-5-tdd/project/src/main/java/com/google/sps/FindMeetingQuery.java:86-115 | For a duration of at least one minute, every slot but the last is a maximal free run that reaches the duration and is followed by a busy minute before the next slot. The last slot is such a run, or the run ending the day, or the stale one-minute slot at minute 1439. The slots strictly ascend and never touch or overlap. |
| FreeRuns.SlotsFromFree | walkthroughs/week-5-tdd/project/src/main/java/com/google/sps/FindMeetingQuery.java:86-115 | For any duration, every slot starts inside the day, ends no later than minute 1440, and covers free minutes only. |
| FreeRuns.SlotsFromStarts | walkthroughs/week-5-tdd/project/src/main/java/com/google/sps/FindMeetingQuery.java:93-95 | Every slot starts at a free minute at or after the point the scan started from. |
| FreeRuns.ClosedRunReportedIff | walkthroughs/week-5-tdd/project/src/main/java/com/google/sps/FindMeetingQuery.java:102-106 | A maximal free run of two or more minutes that ends before the end of the day is reported if and only if it is at least as long as the meeting. A run of exactly the duration is included. |
| FreeRuns.TrailingRunAlwaysReported | walkthroughs/week-5-tdd/project/src/main/java/com/google/sps/FindMeetingQuery.java:93-113 | For any duration up to a day, the run that reaches the end of the day is always the last slot, whatever its length. When it has two minutes or more, it is reported exactly. When it is the single minute 1439, it is reported as [1439, remembered + 1), with the remembered minute given by `LastExtended`. |
| FreeRuns.LastExtended | walkthroughs/week-5-tdd/project/src/main/java/com/google/sps/FindMeetingQuery.java:87-99 | The value `timeRangeEnd` holds when the scan reaches a minute. It is 0, or a free minute before that one whose own previous minute is free too. |
| FreeRuns.LastExtendedIsLatest | walkthroughs/week-5-tdd/project/src/main/java/com/google/sps/FindMeetingQuery.java:87-99 | No minute between that remembered minute and the current one is free with a free minute before it. So it is the latest minute at which the scan extended a run. |
| FreeRuns.OneMinuteRunReportedWithStaleEnd | walkthroughs/week-5-tdd/project/src/main/java/com/google/sps/FindMeetingQuery.java:93-106 | For any duration up to a day, a one-minute free run at minute s that is closed by a busy minute is reported if and only if the remembered minute r satisfies r - s + 1 >= duration. It is then reported as [s, r + 1). |
| FreeRuns.OneMinuteRunReportedIff | walkthroughs/week-5-tdd/project/src/main/java/com/google/sps/FindMeetingQuery.java:93-106 | For a duration of at least one minute, a one-minute free run closed by a busy minute is reported if and only if it is minute 0 and the duration is one minute. |
| FreeRuns.EmptySlotForZeroDuration | walkthroughs/week-5-tdd/project/src/main/java/com/google/sps/FindMeetingQuery.java:93-106 | For a duration of 0, with minute 0 busy, minute 1 free and minute 2 busy, the empty range [1, 1) is among the slots. |
| FreeRuns.AllFreeWholeDay | walkthroughs/week-5-tdd/project/src/main/java/com/google/sps/FindMeetingQuery.java:86-115 | With every minute free, the only slot is [0, 1440). |
| FreeRuns.OnlyLastMinuteFree | walkthroughs/week-5-tdd/project/src/main/java/com/google/sps/FindMeetingQuery.java:93-113 | With only minute 1439 free, the only slot is `TimeRange(1439, 1)`: the stale last minute 0, plus one. |
| Scenarios.OneEventSplitsDay | walkthroughs/week-5-tdd/project/src/main/java/com/google/sps/FindMeetingQuery.java:38-116 | One event of "A" over [60, 120) and a 30-minute meeting for "A" give [0, 60) and [120, 1440). |
| Scenarios.GapBetweenTwoEvents | walkthroughs/week-5-tdd/project/src/main/java/com/google/sps/FindMeetingQuery.java:38-116 | Events of "A" over [0, 600) and [720, 1440) and a 60-minute meeting give only [600, 720). |
| Scenarios.AdjacentEventsLeaveNoGap | walkthroughs/week-5-tdd/project/src/main/java/com/google/sps/FindMeetingQuery.java:38-116 | Back-to-back events over [0, 300) and [300, 600) leave no gap at minute 300: a 60-minute meeting gets only [600, 1440). |
| Scenarios.OtherAttendeeIgnored | walkthroughs/week-5-tdd/project/src/main/java/com/google/sps/FindMeetingQuery.java:43-52 | An event of "B" leaves the whole day free for a meeting of "A" alone, for any duration up to a day. |

## Left out

- The servlets, the data store, the user service and the browser script are not part of this model. They are I/O around the query.
- Only the fields the query reads are modelled for `TimeRange`, `Event` and `MeetingRequest`. `TimeRange.fromStartEnd` is modelled only as the query uses it: the inclusive form ends one minute after the given last minute. An event's title is left out. The time-range classes are not part of this model.
- Java's 32-bit `int` and 64-bit `long` are modelled as unbounded integers. No value in the query comes near the limits, except `end() - 1` for an end of `Integer.MIN_VALUE`. When it wraps, the value is `Integer.MAX_VALUE`, which is past the day, so the range is skipped. Unwrapped, the value is negative. Then either the start is negative and the range is skipped, or the range holds no minute and nothing is marked. The outcome is the same.
- The `Collection` of events and of required attendees is modelled as a `seq` in iteration order. The lemmas `BusyMinutes.EventOrderIrrelevant` and `BusyMinutes.BusyIff` show that the order of the events does not matter.
- The result is modelled as a `seq`. The immutability of `Collections.emptyList()` is not modelled.
- The time and space bounds in the method's comment are not modelled.
- FreeRuns.SlotsShape: stated only for durations of at least one minute. For zero or negative durations, only `FreeRuns.SlotsFromFree` is proved.
