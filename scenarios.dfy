/**
 * Concrete days and requests, worked out from the general lemmas: what the
 * query reports for them.
 */
module Scenarios {
  import opened Calendar
  import opened BusyMinutes
  import opened FreeRuns

  /** One event of "A" from minute 60 to 120 splits the day in two. */
  lemma OneEventSplitsDay()
    ensures Slots(Busy([Event(TimeRange(60, 120), {"A"})], ["A"]), 30) ==
      [TimeRange(0, 60), TimeRange(120, MinutesPerDay)]
  {
    var event := Event(TimeRange(60, 120), {"A"});
    var busy := Busy([event], ["A"]);
    assert Relevant(event, ["A"]) by { assert "A" in ["A"]; }
    forall m | 0 <= m < MinutesPerDay
      ensures busy[m] <==> 60 <= m < 120
    {
      BusyIff([event], ["A"], m);
    }
    var tail := SlotsFrom(busy, 120, 59, 30);
    assert tail == [TimeRange(120, MinutesPerDay)] by {
      UnfoldRun(busy, 120, MinutesPerDay, 59, 30);
    }
    assert SlotsFrom(busy, 60, 59, 30) == tail by {
      SkipBusy(busy, 60, 120, 59, 30);
    }
    assert SlotsFrom(busy, 0, 0, 30) == [TimeRange(0, 60)] + tail by {
      UnfoldRun(busy, 0, 60, 0, 30);
    }
    assert [TimeRange(0, 60)] + tail == [TimeRange(0, 60), TimeRange(120, MinutesPerDay)];
  }

  /** Events of "A" in the morning and the afternoon leave only the gap between them. */
  lemma GapBetweenTwoEvents()
    ensures Slots(Busy([Event(TimeRange(0, 600), {"A"}), Event(TimeRange(720, MinutesPerDay), {"A"})], ["A"]), 60) ==
      [TimeRange(600, 720)]
  {
    var morning, afternoon := Event(TimeRange(0, 600), {"A"}), Event(TimeRange(720, MinutesPerDay), {"A"});
    var events := [morning, afternoon];
    var busy := Busy(events, ["A"]);
    assert Relevant(morning, ["A"]) && Relevant(afternoon, ["A"]) by { assert "A" in ["A"]; }
    forall m | 0 <= m < MinutesPerDay
      ensures busy[m] <==> m < 600 || 720 <= m
    {
      BusyIff(events, ["A"], m);
      assert forall e :: e in events <==> e == morning || e == afternoon;
    }
    assert SlotsFrom(busy, 720, 719, 60) == [] by {
      SkipBusy(busy, 720, MinutesPerDay, 719, 60);
    }
    assert SlotsFrom(busy, 600, 0, 60) == [TimeRange(600, 720)] by {
      UnfoldRun(busy, 600, 720, 0, 60);
    }
    SkipBusy(busy, 0, 600, 0, 60);
  }

  /** Two back-to-back events of "A" leave no gap where they meet. */
  lemma AdjacentEventsLeaveNoGap()
    ensures Slots(Busy([Event(TimeRange(0, 300), {"A"}), Event(TimeRange(300, 600), {"A"})], ["A"]), 60) ==
      [TimeRange(600, MinutesPerDay)]
  {
    var first, second := Event(TimeRange(0, 300), {"A"}), Event(TimeRange(300, 600), {"A"});
    var events := [first, second];
    var busy := Busy(events, ["A"]);
    assert Relevant(first, ["A"]) && Relevant(second, ["A"]) by { assert "A" in ["A"]; }
    forall m | 0 <= m < MinutesPerDay
      ensures busy[m] <==> m < 600
    {
      BusyIff(events, ["A"], m);
      assert forall e :: e in events <==> e == first || e == second;
    }
    assert SlotsFrom(busy, 600, 0, 60) == [TimeRange(600, MinutesPerDay)] by {
      UnfoldRun(busy, 600, MinutesPerDay, 0, 60);
    }
    SkipBusy(busy, 0, 600, 0, 60);
  }

  /** An event of "B" does not matter to a meeting of "A" alone. */
  lemma OtherAttendeeIgnored(duration: int)
    requires duration <= MinutesPerDay
    ensures Slots(Busy([Event(TimeRange(540, 600), {"B"})], ["A"]), duration) == [TimeRange(0, MinutesPerDay)]
  {
    var events := [Event(TimeRange(540, 600), {"B"})];
    NoRelevantEventAllFree(events, ["A"]);
    AllFreeWholeDay(Busy(events, ["A"]), duration);
  }
}
