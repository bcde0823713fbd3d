/**
 * The value types the meeting query works on: time ranges measured in
 * minutes since midnight, calendar events and meeting requests.
 */
module Calendar {

  /** Minutes in the one day the query covers (24 * 60). */
  const MinutesPerDay: int := 24 * 60

  /** A half-open range of minutes [start, end). */
  datatype TimeRange = TimeRange(start: int, end: int)

  /** An event already on the calendar: when it happens and who attends it. */
  datatype Event = Event(when: TimeRange, attendees: set<string>)

  /** The meeting to schedule: who must attend and for how many minutes. */
  datatype MeetingRequest = MeetingRequest(attendees: seq<string>, duration: int)

  /**
   * Builds a range from its first and last minute. The inclusive form
   * names the last minute of the range, so the range ends one minute later.
   */
  function FromStartEnd(start: int, end: int, inclusive: bool): TimeRange
  {
    if inclusive then TimeRange(start, end + 1) else TimeRange(start, end)
  }

  /** Minute `m` lies inside range `r`. */
  predicate Covers(r: TimeRange, m: int)
  {
    r.start <= m < r.end
  }
}
