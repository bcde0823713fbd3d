/**
 * The meeting query itself: mark the busy minutes of the day in a boolean
 * array, one relevant event at a time, then scan the array once for free
 * runs long enough for the meeting.
 */
module FindMeetingQuery {
  import opened Calendar
  import opened BusyMinutes
  import opened FreeRuns

  /**
   * The free slots of the day for `request`, given the day's `events`. The
   * result is the scan of the busy minutes the relevant events leave.
   */
  method Query(events: seq<Event>, request: MeetingRequest) returns (slots: seq<TimeRange>)
    ensures slots == Slots(Busy(events, request.attendees), request.duration)
    ensures request.duration > MinutesPerDay ==> slots == []
    ensures request.duration <= MinutesPerDay && (forall e :: e in events ==> !Relevant(e, request.attendees)) ==>
      slots == [TimeRange(0, MinutesPerDay)]
  {
    var unavailableMinutes := new bool[MinutesPerDay](_ => false);
    var meetingAttendees := request.attendees;
    var meetingDuration := request.duration;

    var j := 0;
    while j < |events|
      invariant 0 <= j <= |events|
      invariant unavailableMinutes[..] == Busy(events[..j], meetingAttendees)
    {
      var event := events[j];
      assert events[..j + 1][..j] == events[..j];
      var t := 0;
      while t < |meetingAttendees|
        invariant 0 <= t <= |meetingAttendees|
        invariant forall u :: 0 <= u < t ==> meetingAttendees[u] !in event.attendees
        invariant unavailableMinutes[..] == Busy(events[..j], meetingAttendees)
      {
        if meetingAttendees[t] in event.attendees {
          AddUnavailableMinutes(unavailableMinutes, event.when);
          assert Relevant(event, meetingAttendees);
          break;
        }
        t := t + 1;
      }
      j := j + 1;
    }
    assert events[..j] == events;

    slots := CheckForAvailableTimeSlots(unavailableMinutes, meetingDuration);
    if meetingDuration <= MinutesPerDay && forall e :: e in events ==> !Relevant(e, meetingAttendees) {
      NoRelevantEventAllFree(events, meetingAttendees);
      AllFreeWholeDay(unavailableMinutes[..], meetingDuration);
    }
  }

  /**
   * Sets the minutes of `when` busy, unless the range starts before midnight
   * or ends after the day; never frees a minute.
   */
  method AddUnavailableMinutes(unavailableMinutes: array<bool>, when: TimeRange)
    requires unavailableMinutes.Length == MinutesPerDay
    modifies unavailableMinutes
    ensures unavailableMinutes[..] == Mark(old(unavailableMinutes[..]), when)
    ensures !InDomain(when) ==> unavailableMinutes[..] == old(unavailableMinutes[..])
    ensures InDomain(when) ==> forall m :: 0 <= m < MinutesPerDay ==>
      (unavailableMinutes[m] <==> old(unavailableMinutes[m]) || when.start <= m < when.end)
    ensures forall m :: 0 <= m < MinutesPerDay && old(unavailableMinutes[m]) ==> unavailableMinutes[m]
  {
    if when.start < 0 || when.end - 1 > MinutesPerDay - 1 {
      return;
    }
    var i := when.start;
    while i <= when.end - 1
      invariant when.start <= i && (i <= when.end || i == when.start)
      invariant forall m :: 0 <= m < MinutesPerDay ==>
        unavailableMinutes[m] == (old(unavailableMinutes[m]) || when.start <= m < i)
    {
      unavailableMinutes[i] := true;
      i := i + 1;
    }
  }

  /**
   * Scans the busy minutes once, minute by minute, and reports the free runs
   * that are long enough, plus the run still open at the end of the day.
   */
  method CheckForAvailableTimeSlots(unavailableMinutes: array<bool>, duration: int)
    returns (availableTimeSlots: seq<TimeRange>)
    ensures availableTimeSlots == Slots(unavailableMinutes[..], duration)
  {
    if duration > MinutesPerDay {
      return [];
    }
    ghost var busy := unavailableMinutes[..];
    availableTimeSlots := [];
    var inTimeRange := false;
    var timeRangeStart := 0;
    var timeRangeEnd := 0;
    // the value of timeRangeEnd when the current run was opened
    ghost var stale := 0;
    var i := 0;
    while i < unavailableMinutes.Length
      invariant ScanInvariant(busy, duration, i, inTimeRange, timeRangeStart, timeRangeEnd, stale, availableTimeSlots)
    {
      if !unavailableMinutes[i] && !inTimeRange {
        // a free minute after a busy one opens a run
        ScanOpen(busy, duration, i, timeRangeStart, timeRangeEnd, stale, availableTimeSlots);
        inTimeRange := true;
        timeRangeStart := i;
        stale := timeRangeEnd;
      } else if !unavailableMinutes[i] && inTimeRange {
        // a further free minute extends the run
        ScanExtend(busy, duration, i, timeRangeStart, timeRangeEnd, stale, availableTimeSlots);
        timeRangeEnd := i;
      } else if inTimeRange {
        // a busy minute closes the run, which is reported when long enough
        ghost var reported := availableTimeSlots;
        inTimeRange := false;
        if timeRangeEnd - timeRangeStart + 1 >= duration {
          availableTimeSlots := availableTimeSlots + [FromStartEnd(timeRangeStart, timeRangeEnd, true)];
        }
        ScanClose(busy, duration, i, timeRangeStart, timeRangeEnd, stale, reported, availableTimeSlots);
      } else {
        ScanSkip(busy, duration, i, timeRangeStart, timeRangeEnd, stale, availableTimeSlots);
      }
      i := i + 1;
    }

    // the run still open at the end of the day is reported whatever its length
    ScanFinish(busy, duration, inTimeRange, timeRangeStart, timeRangeEnd, stale, availableTimeSlots);
    if inTimeRange {
      availableTimeSlots := availableTimeSlots + [FromStartEnd(timeRangeStart, timeRangeEnd, true)];
    }
  }

  /**
   * The state of the scan before minute `i`: `inRange` holds exactly when
   * minute i - 1 is free; an open run starts at 0 or after a busy minute and
   * is free up to i - 1; its remembered last minute is i - 1 from its second
   * minute on and `stale` before; what is reported so far, followed by the
   * slots of the runs from the open run (or from `i`) on, is the whole result.
   */
  ghost predicate ScanInvariant(busy: seq<bool>, duration: int, i: int, inRange: bool,
                                start: int, end: int, stale: int, reported: seq<TimeRange>)
  {
    0 <= i <= |busy| &&
    (inRange <==> i > 0 && !busy[i - 1]) &&
    (inRange ==>
      0 <= start < i && (start == 0 || busy[start - 1]) &&
      (forall k :: start <= k < i ==> !busy[k]) &&
      0 <= stale && (stale < start || stale == 0) && end == RunLast(start, i, stale) &&
      reported + SlotsFrom(busy, start, stale, duration) == SlotsFrom(busy, 0, 0, duration)) &&
    (!inRange ==>
      0 <= end && (end < i || end == 0) &&
      reported + SlotsFrom(busy, i, end, duration) == SlotsFrom(busy, 0, 0, duration))
  }

  /** A free minute after a busy one opens a run there. */
  lemma ScanOpen(busy: seq<bool>, duration: int, i: int, start: int, end: int, stale: int, reported: seq<TimeRange>)
    requires ScanInvariant(busy, duration, i, false, start, end, stale, reported)
    requires i < |busy| && !busy[i]
    ensures ScanInvariant(busy, duration, i + 1, true, i, end, end, reported)
  {
  }

  /** A free minute inside a run becomes its remembered last minute. */
  lemma ScanExtend(busy: seq<bool>, duration: int, i: int, start: int, end: int, stale: int, reported: seq<TimeRange>)
    requires ScanInvariant(busy, duration, i, true, start, end, stale, reported)
    requires i < |busy| && !busy[i]
    ensures ScanInvariant(busy, duration, i + 1, true, start, i, stale, reported)
  {
  }

  /** A busy minute closes the open run, which is reported when long enough. */
  lemma ScanClose(busy: seq<bool>, duration: int, i: int, start: int, end: int, stale: int,
                  reported: seq<TimeRange>, reported': seq<TimeRange>)
    requires ScanInvariant(busy, duration, i, true, start, end, stale, reported)
    requires i < |busy| && busy[i]
    requires reported' == if end - start + 1 >= duration then reported + [FromStartEnd(start, end, true)] else reported
    ensures ScanInvariant(busy, duration, i + 1, false, start, end, stale, reported')
  {
    var slot := RunSlot(start, end, false, duration);
    var later := SlotsFrom(busy, i + 1, end, duration);
    assert SlotsFrom(busy, start, stale, duration) == slot + later by {
      CloseRun(busy, start, i, stale, duration);
    }
    assert reported' == reported + slot;
  }

  /** A busy minute outside a run changes nothing. */
  lemma ScanSkip(busy: seq<bool>, duration: int, i: int, start: int, end: int, stale: int, reported: seq<TimeRange>)
    requires ScanInvariant(busy, duration, i, false, start, end, stale, reported)
    requires i < |busy| && busy[i]
    ensures ScanInvariant(busy, duration, i + 1, false, start, end, stale, reported)
  {
  }

  /** At the end of the day, the open run, if any, is the last slot. */
  lemma ScanFinish(busy: seq<bool>, duration: int, inRange: bool, start: int, end: int, stale: int, reported: seq<TimeRange>)
    requires ScanInvariant(busy, duration, |busy|, inRange, start, end, stale, reported)
    ensures SlotsFrom(busy, 0, 0, duration) ==
      if inRange then reported + [FromStartEnd(start, end, true)] else reported
  {
    if inRange {
      UnfoldRun(busy, start, |busy|, stale, duration);
    }
  }

  /**
   * No reported slot overlaps a minute of an in-domain event that one of the
   * required attendees goes to.
   */
  lemma SlotsAvoidRelevantEvents(events: seq<Event>, request: MeetingRequest)
    ensures forall r, e, m ::
      (r in Slots(Busy(events, request.attendees), request.duration) && e in events &&
       Relevant(e, request.attendees) && InDomain(e.when) && r.start <= m < r.end) ==> !Covers(e.when, m)
  {
    var busy := Busy(events, request.attendees);
    var slots := Slots(busy, request.duration);
    if request.duration <= MinutesPerDay {
      SlotsFromFree(busy, 0, 0, request.duration);
    }
    forall r, e, m | r in slots && e in events && Relevant(e, request.attendees) &&
      InDomain(e.when) && r.start <= m < r.end
      ensures !Covers(e.when, m)
    {
      BusyIff(events, request.attendees, m);
    }
  }
}
