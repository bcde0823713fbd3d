/**
 * The first phase of the meeting query: which minutes of the day are taken
 * by an event that one of the required attendees goes to.
 */
module BusyMinutes {
  import opened Calendar

  /** Some required attendee goes to event `e`. */
  predicate Relevant(e: Event, attendees: seq<string>)
  {
    exists a :: a in attendees && a in e.attendees
  }

  /**
   * A range that is marked at all: one that starts at or after midnight and
   * whose last minute is inside the day. Other ranges are skipped whole.
   */
  predicate InDomain(r: TimeRange)
  {
    !(r.start < 0 || r.end - 1 > MinutesPerDay - 1)
  }

  /** Event `e` makes minute `m` unavailable for the required attendees. */
  predicate Blocks(e: Event, attendees: seq<string>, m: int)
  {
    Relevant(e, attendees) && InDomain(e.when) && Covers(e.when, m)
  }

  /** The minutes of `busy` with the minutes of an in-domain range `r` set. */
  function Mark(busy: seq<bool>, r: TimeRange): seq<bool>
  {
    seq(|busy|, m requires 0 <= m < |busy| => busy[m] || (InDomain(r) && Covers(r, m)))
  }

  /**
   * The busy minutes after marking `events` one after the other, starting
   * from a day with every minute free.
   */
  function Busy(events: seq<Event>, attendees: seq<string>): (busy: seq<bool>)
    ensures |busy| == MinutesPerDay
  {
    if events == [] then seq(MinutesPerDay, _ => false)
    else
      var prior := Busy(events[..|events| - 1], attendees);
      var e := events[|events| - 1];
      if Relevant(e, attendees) then Mark(prior, e.when) else prior
  }

  /** A minute is busy exactly when some event blocks it. */
  lemma {:induction false} BusyIff(events: seq<Event>, attendees: seq<string>, m: int)
    requires 0 <= m < MinutesPerDay
    ensures Busy(events, attendees)[m] <==> exists e :: e in events && Blocks(e, attendees, m)
    decreases |events|
  {
    if events != [] {
      var pre := events[..|events| - 1];
      var last := events[|events| - 1];
      assert events == pre + [last];
      BusyIff(pre, attendees, m);
      if Busy(events, attendees)[m] {
        if Busy(pre, attendees)[m] {
          var e :| e in pre && Blocks(e, attendees, m);
          assert e in events;
        } else {
          assert Blocks(last, attendees, m);
        }
      } else {
        forall e | e in events
          ensures !Blocks(e, attendees, m)
        {
          if e != last {
            assert e in pre;
          }
        }
      }
    }
  }

  /** An event no required attendee goes to changes no minute, wherever it stands. */
  lemma IrrelevantEventIgnored(pre: seq<Event>, e: Event, post: seq<Event>, attendees: seq<string>)
    requires !Relevant(e, attendees)
    ensures Busy(pre + [e] + post, attendees) == Busy(pre + post, attendees)
  {
    var withE, withoutE := Busy(pre + [e] + post, attendees), Busy(pre + post, attendees);
    forall m | 0 <= m < MinutesPerDay
      ensures withE[m] == withoutE[m]
    {
      BusyIff(pre + [e] + post, attendees, m);
      BusyIff(pre + post, attendees, m);
      if withE[m] {
        var x :| x in pre + [e] + post && Blocks(x, attendees, m);
        assert x in pre + post;
      }
      if withoutE[m] {
        var x :| x in pre + post && Blocks(x, attendees, m);
        assert x in pre + [e] + post;
      }
    }
  }

  /** Marking the same events in another order gives the same busy minutes. */
  lemma EventOrderIrrelevant(events1: seq<Event>, events2: seq<Event>, attendees: seq<string>)
    requires multiset(events1) == multiset(events2)
    ensures Busy(events1, attendees) == Busy(events2, attendees)
  {
    var busy1, busy2 := Busy(events1, attendees), Busy(events2, attendees);
    forall m | 0 <= m < MinutesPerDay
      ensures busy1[m] == busy2[m]
    {
      BusyIff(events1, attendees, m);
      BusyIff(events2, attendees, m);
      if busy1[m] {
        var x :| x in events1 && Blocks(x, attendees, m);
        assert x in multiset(events2);
      }
      if busy2[m] {
        var x :| x in events2 && Blocks(x, attendees, m);
        assert x in multiset(events1);
      }
    }
  }

  /** When no event has a required attendee, the whole day stays free. */
  lemma {:induction false} NoRelevantEventAllFree(events: seq<Event>, attendees: seq<string>)
    requires forall e :: e in events ==> !Relevant(e, attendees)
    ensures forall m :: 0 <= m < MinutesPerDay ==> !Busy(events, attendees)[m]
  {
    forall m | 0 <= m < MinutesPerDay
      ensures !Busy(events, attendees)[m]
    {
      BusyIff(events, attendees, m);
    }
  }
}
