/**
 * The second phase of the meeting query, stated run by run: the free runs
 * of a busy-minute array and the time slots the scan reports for them.
 *
 * The scan remembers the last minute of a run only from the run's second
 * minute on. A run of length one therefore reports whatever last minute was
 * remembered before it (`stale`: the last minute of the latest run of length
 * two or more, or 0 before any). The definitions below keep that behaviour.
 */
module FreeRuns {
  import opened Calendar

  /** The first busy minute at or after `s`, or |busy| when there is none. */
  function RunEnd(busy: seq<bool>, s: nat): (e: nat)
    requires s <= |busy|
    ensures s <= e <= |busy|
    ensures forall k :: s <= k < e ==> !busy[k]
    ensures e < |busy| ==> busy[e]
    decreases |busy| - s
  {
    if s == |busy| || busy[s] then s else RunEnd(busy, s + 1)
  }

  /** The last minute the scan reports for the run [s, e). */
  function RunLast(s: int, e: int, stale: int): int
  {
    if e - s >= 2 then e - 1 else stale
  }

  /**
   * The minute the scan remembers as a run's last minute when it reaches
   * minute `i`: the latest minute before `i` that is free and follows a free
   * minute, or 0 when there is none.
   */
  function LastExtended(busy: seq<bool>, i: nat): (r: nat)
    requires i <= |busy|
    ensures r < i || r == 0
    ensures r > 0 ==> !busy[r - 1] && !busy[r]
    decreases i
  {
    if i <= 1 then 0
    else if !busy[i - 1] && !busy[i - 2] then i - 1
    else LastExtended(busy, i - 1)
  }

  /** No minute after LastExtended and before `i` is free with a free minute before it. */
  lemma {:induction false} LastExtendedIsLatest(busy: seq<bool>, i: nat)
    requires i <= |busy|
    ensures forall k :: LastExtended(busy, i) < k < i ==> busy[k - 1] || busy[k]
    decreases i
  {
    if i > 1 && !(!busy[i - 1] && !busy[i - 2]) {
      LastExtendedIsLatest(busy, i - 1);
    }
  }

  /**
   * What the scan reports for a run starting at `start` whose last minute it
   * takes to be `last`: a run cut off by the end of the day is always
   * reported, a run closed by a busy minute only when long enough.
   */
  function RunSlot(start: int, last: int, atEnd: bool, duration: int): seq<TimeRange>
  {
    if atEnd || last - start + 1 >= duration then [FromStartEnd(start, last, true)] else []
  }

  /**
   * The slots reported for the runs starting at or after minute `m`, when
   * the remembered last minute is `stale`: busy minutes are passed over, and
   * a free minute starts a run that ends at the next busy minute.
   */
  function SlotsFrom(busy: seq<bool>, m: nat, stale: int, duration: int): seq<TimeRange>
    requires m <= |busy| && (stale < m || stale == 0)
    decreases |busy| - m
  {
    if m == |busy| then []
    else if busy[m] then SlotsFrom(busy, m + 1, stale, duration)
    else
      var e := RunEnd(busy, m);
      var last := RunLast(m, e, stale);
      RunSlot(m, last, e == |busy|, duration) + SlotsFrom(busy, e, last, duration)
  }

  /** The slots the scan reports for a whole day: none when the meeting is longer than a day. */
  function Slots(busy: seq<bool>, duration: int): seq<TimeRange>
  {
    if duration > MinutesPerDay then [] else SlotsFrom(busy, 0, 0, duration)
  }

  /**
   * Concatenation of slot sequences is associative. Stated on its own so that
   * the step costs little inside larger proofs.
   */
  lemma AppendAssoc(a: seq<TimeRange>, b: seq<TimeRange>, c: seq<TimeRange>)
    ensures (a + b) + c == a + (b + c)
  {
  }

  /** [s, e) is a maximal run of free minutes. */
  ghost predicate MaximalFreeRun(busy: seq<bool>, s: int, e: int)
  {
    0 <= s < e <= |busy| && (forall k :: s <= k < e ==> !busy[k]) &&
    (s == 0 || busy[s - 1]) && (e == |busy| || busy[e])
  }

  /** A slot that is a maximal free run, long enough unless it reaches the end of the day. */
  ghost predicate ProperSlot(busy: seq<bool>, r: TimeRange, duration: int)
  {
    MaximalFreeRun(busy, r.start, r.end) && (r.end == |busy| || r.end - r.start >= duration)
  }

  /**
   * The slot reported for a one-minute run in the last minute of the day,
   * whose end comes from a stale last minute and so does not exceed its start.
   */
  ghost predicate StaleTrailingSlot(busy: seq<bool>, r: TimeRange)
  {
    r.start == |busy| - 1 && r.end <= r.start && MaximalFreeRun(busy, |busy| - 1, |busy|)
  }

  /**
   * Every slot but the last is a proper slot followed by a busy minute before
   * the next slot; the last is proper or the stale trailing slot.
   */
  ghost predicate WellFormedSlots(busy: seq<bool>, slots: seq<TimeRange>, duration: int)
  {
    (forall k :: 0 <= k < |slots| - 1 ==>
      ProperSlot(busy, slots[k], duration) && slots[k].end < |busy| && busy[slots[k].end] &&
      slots[k].end < slots[k + 1].start) &&
    (slots != [] ==>
      ProperSlot(busy, slots[|slots| - 1], duration) || StaleTrailingSlot(busy, slots[|slots| - 1]))
  }

  /** The slots, taken from the first: the recursive form of WellFormedSlots. */
  ghost predicate SlotChain(busy: seq<bool>, slots: seq<TimeRange>, duration: int)
    decreases |slots|
  {
    if slots == [] then true
    else if |slots| == 1 then ProperSlot(busy, slots[0], duration) || StaleTrailingSlot(busy, slots[0])
    else
      ProperSlot(busy, slots[0], duration) && slots[0].end < |busy| && busy[slots[0].end] &&
      slots[0].end < slots[1].start && SlotChain(busy, slots[1..], duration)
  }

  /** A chain of slots is well formed. */
  lemma {:induction false} ChainWellFormed(busy: seq<bool>, slots: seq<TimeRange>, duration: int)
    requires SlotChain(busy, slots, duration)
    ensures WellFormedSlots(busy, slots, duration)
    decreases |slots|
  {
    if |slots| >= 2 {
      var rest := slots[1..];
      ChainWellFormed(busy, rest, duration);
      forall k | 0 <= k < |slots| - 1
        ensures ProperSlot(busy, slots[k], duration) && slots[k].end < |busy| &&
          busy[slots[k].end] && slots[k].end < slots[k + 1].start
      {
        if k > 0 {
          assert slots[k] == rest[k - 1] && slots[k + 1] == rest[k];
        }
      }
      assert slots[|slots| - 1] == rest[|rest| - 1];
    }
  }

  /** A run [s, e) is unfolded by SlotsFrom into its own slot and the slots after it. */
  lemma UnfoldRun(busy: seq<bool>, s: nat, e: nat, stale: int, duration: int)
    requires s < e <= |busy| && (stale < s || stale == 0)
    requires forall k :: s <= k < e ==> !busy[k]
    requires e == |busy| || busy[e]
    ensures RunEnd(busy, s) == e
    ensures SlotsFrom(busy, s, stale, duration) ==
      RunSlot(s, RunLast(s, e, stale), e == |busy|, duration) +
      SlotsFrom(busy, e, RunLast(s, e, stale), duration)
  {
  }

  /** At the end of a run [m, k), the remembered last minute is the one RunLast picks. */
  lemma RunLastExtended(busy: seq<bool>, m: nat, k: nat)
    requires m < k <= |busy| && (m == 0 || busy[m - 1])
    requires forall j :: m <= j < k ==> !busy[j]
    ensures LastExtended(busy, k) == RunLast(m, k, LastExtended(busy, m))
  {
  }

  /** Busy minutes start no run, so SlotsFrom passes over them. */
  lemma {:induction false} SkipBusy(busy: seq<bool>, m: nat, s: nat, stale: int, duration: int)
    requires m <= s <= |busy| && (stale < m || stale == 0)
    requires forall k :: m <= k < s ==> busy[k]
    ensures SlotsFrom(busy, m, stale, duration) == SlotsFrom(busy, s, stale, duration)
    decreases s - m
  {
    if m < s {
      SkipBusy(busy, m + 1, s, stale, duration);
    }
  }

  /** The slot of a run, when reported, is proper or the stale trailing slot. */
  lemma RunSlotShape(busy: seq<bool>, m: nat, stale: int, duration: int, s: nat, e: nat)
    requires m <= s < e <= |busy| && (stale < m || stale == 0) && 0 <= stale
    requires MaximalFreeRun(busy, s, e) && duration >= 1
    ensures forall r :: r in RunSlot(s, RunLast(s, e, stale), e == |busy|, duration) ==>
      (r.end == e && ProperSlot(busy, r, duration)) ||
      (e == |busy| && StaleTrailingSlot(busy, r))
  {
  }

  /**
   * A run [s, e) closed by the busy minute `e` contributes its own slot, and
   * the slots after it start past `e`.
   */
  lemma CloseRun(busy: seq<bool>, s: nat, e: nat, stale: int, duration: int)
    requires s < e < |busy| && (stale < s || stale == 0) && busy[e]
    requires forall k :: s <= k < e ==> !busy[k]
    ensures SlotsFrom(busy, s, stale, duration) ==
      RunSlot(s, RunLast(s, e, stale), false, duration) + SlotsFrom(busy, e + 1, RunLast(s, e, stale), duration)
  {
    UnfoldRun(busy, s, e, stale, duration);
  }

  /**
   * A run starting at the free minute `m`, followed by a chain of slots,
   * gives a chain of slots.
   */
  lemma RunThenChain(busy: seq<bool>, m: nat, stale: int, duration: int)
    requires m < |busy| && !busy[m] && (m == 0 || busy[m - 1])
    requires (stale < m || stale == 0) && 0 <= stale && duration >= 1
    requires SlotChain(busy,
      SlotsFrom(busy, RunEnd(busy, m), RunLast(m, RunEnd(busy, m), stale), duration), duration)
    ensures SlotChain(busy, SlotsFrom(busy, m, stale, duration), duration)
  {
    var e := RunEnd(busy, m);
    var last := RunLast(m, e, stale);
    var head := RunSlot(m, last, e == |busy|, duration);
    var tail := SlotsFrom(busy, e, last, duration);
    assert SlotsFrom(busy, m, stale, duration) == head + tail;
    RunSlotShape(busy, m, stale, duration, m, e);
    if head != [] {
      var slots := head + tail;
      assert slots[0] == head[0];
      if e < |busy| {
        if tail != [] {
          SlotsFromStarts(busy, e, last, duration);
          assert tail[0] in tail;
          assert slots[1..] == tail;
        }
      } else {
        assert tail == [];
      }
    } else {
      assert head + tail == tail;
    }
  }

  /** For a duration of at least one minute the reported slots form a chain. */
  lemma {:induction false} SlotsFromChain(busy: seq<bool>, m: nat, stale: int, duration: int)
    requires m <= |busy| && (stale < m || stale == 0) && 0 <= stale
    requires m == 0 || m == |busy| || busy[m] || busy[m - 1]
    requires duration >= 1
    ensures SlotChain(busy, SlotsFrom(busy, m, stale, duration), duration)
    decreases |busy| - m
  {
    if m == |busy| {
    } else if busy[m] {
      assert SlotsFrom(busy, m, stale, duration) == SlotsFrom(busy, m + 1, stale, duration);
      SlotsFromChain(busy, m + 1, stale, duration);
    } else {
      var e := RunEnd(busy, m);
      assert e == |busy| || busy[e];
      SlotsFromChain(busy, e, RunLast(m, e, stale), duration);
      RunThenChain(busy, m, stale, duration);
    }
  }

  /** Slots of a well-formed sequence are in strictly ascending order and pairwise disjoint. */
  lemma {:induction false} WellFormedSlotsOrdered(busy: seq<bool>, slots: seq<TimeRange>, duration: int, j: nat, k: nat)
    requires WellFormedSlots(busy, slots, duration)
    requires j < k < |slots|
    ensures slots[j].end < slots[k].start
    decreases k - j
  {
    if k > j + 1 {
      WellFormedSlotsOrdered(busy, slots, duration, j, k - 1);
      assert ProperSlot(busy, slots[k - 1], duration);
    }
  }

  /**
   * For a duration of at least one minute, each reported slot is a maximal
   * free run (or the stale trailing slot), the slots ascend, do not overlap
   * and have a busy minute between each two.
   */
  lemma SlotsShape(busy: seq<bool>, duration: int)
    requires duration >= 1
    ensures WellFormedSlots(busy, Slots(busy, duration), duration)
    ensures forall j, k :: 0 <= j < k < |Slots(busy, duration)| ==>
      Slots(busy, duration)[j].end < Slots(busy, duration)[k].start
  {
    var slots := Slots(busy, duration);
    if duration <= MinutesPerDay {
      SlotsFromChain(busy, 0, 0, duration);
      ChainWellFormed(busy, slots, duration);
    }
    forall j, k | 0 <= j < k < |slots|
      ensures slots[j].end < slots[k].start
    {
      WellFormedSlotsOrdered(busy, slots, duration, j, k);
    }
  }

  /** Every slot reported from minute `m` on starts on a free minute no earlier than `m`. */
  lemma {:induction false} SlotsFromStarts(busy: seq<bool>, m: nat, stale: int, duration: int)
    requires m <= |busy| && (stale < m || stale == 0)
    ensures forall r :: r in SlotsFrom(busy, m, stale, duration) ==> m <= r.start < |busy| && !busy[r.start]
    decreases |busy| - m
  {
    if m == |busy| {
    } else if busy[m] {
      SlotsFromStarts(busy, m + 1, stale, duration);
    } else {
      var e := RunEnd(busy, m);
      var last := RunLast(m, e, stale);
      SlotsFromStarts(busy, e, last, duration);
      assert SlotsFrom(busy, m, stale, duration) ==
        RunSlot(m, last, e == |busy|, duration) + SlotsFrom(busy, e, last, duration);
    }
  }

  /**
   * Whatever the duration, every reported slot lies within the day and
   * covers free minutes only.
   */
  lemma {:induction false} SlotsFromFree(busy: seq<bool>, m: nat, stale: int, duration: int)
    requires m <= |busy| && (stale < m || stale == 0)
    ensures forall r :: r in SlotsFrom(busy, m, stale, duration) ==>
      0 <= r.start < |busy| && r.end <= |busy| && forall k :: r.start <= k < r.end ==> !busy[k]
    decreases |busy| - m
  {
    if m == |busy| {
    } else if busy[m] {
      SlotsFromFree(busy, m + 1, stale, duration);
    } else {
      var e := RunEnd(busy, m);
      var last := RunLast(m, e, stale);
      SlotsFromFree(busy, e, last, duration);
      assert SlotsFrom(busy, m, stale, duration) ==
        RunSlot(m, last, e == |busy|, duration) + SlotsFrom(busy, e, last, duration);
    }
  }

  /**
   * The slots from `m` are those of the runs before `s`, all starting before
   * `s`, followed by the slots from `s` on with the last minute remembered there.
   */
  lemma {:induction false} SplitAtRun(busy: seq<bool>, m: nat, stale: int, duration: int, s: nat)
    returns (before: seq<TimeRange>, st: int)
    requires m <= s < |busy| && !busy[s] && (s == 0 || busy[s - 1])
    requires (m == 0 || busy[m - 1] || busy[m]) && stale == LastExtended(busy, m)
    ensures st == LastExtended(busy, s)
    ensures forall r :: r in before ==> r.start < s
    ensures SlotsFrom(busy, m, stale, duration) == before + SlotsFrom(busy, s, st, duration)
    decreases |busy| - m
  {
    if m == s {
      before, st := [], stale;
      assert [] + SlotsFrom(busy, s, st, duration) == SlotsFrom(busy, s, st, duration);
    } else if busy[m] {
      BusyBeforeSplit(busy, m, stale, duration);
      before, st := SplitAtRun(busy, m + 1, stale, duration, s);
    } else {
      var e0 := RunEnd(busy, m);
      var last0 := RunLast(m, e0, stale);
      var head := RunSlot(m, last0, e0 == |busy|, duration);
      RunBeforeSplit(busy, m, stale, duration, s);
      var rest;
      rest, st := SplitAtRun(busy, e0, last0, duration, s);
      before := head + rest;
      assert forall r :: r in before ==> r in head || r in rest;
      AppendAssoc(head, rest, SlotsFrom(busy, s, st, duration));
    }
  }

  /** A busy minute adds no slot and leaves the remembered last minute as it is. */
  lemma BusyBeforeSplit(busy: seq<bool>, m: nat, stale: int, duration: int)
    requires m < |busy| && busy[m] && stale == LastExtended(busy, m)
    ensures SlotsFrom(busy, m, stale, duration) == SlotsFrom(busy, m + 1, stale, duration)
    ensures LastExtended(busy, m + 1) == stale
  {
  }

  /**
   * A run that starts before the run start `s` ends at a busy minute before
   * it, where the remembered last minute is the one RunLast picks.
   */
  lemma RunBeforeSplit(busy: seq<bool>, m: nat, stale: int, duration: int, s: nat)
    requires m < s < |busy| && !busy[m] && busy[s - 1]
    requires (m == 0 || busy[m - 1]) && stale == LastExtended(busy, m)
    ensures RunEnd(busy, m) <= s - 1 && busy[RunEnd(busy, m)]
    ensures RunLast(m, RunEnd(busy, m), stale) == LastExtended(busy, RunEnd(busy, m))
    ensures SlotsFrom(busy, m, stale, duration) ==
      RunSlot(m, RunLast(m, RunEnd(busy, m), stale), RunEnd(busy, m) == |busy|, duration) +
      SlotsFrom(busy, RunEnd(busy, m), RunLast(m, RunEnd(busy, m), stale), duration)
    ensures forall r :: r in RunSlot(m, RunLast(m, RunEnd(busy, m), stale), RunEnd(busy, m) == |busy|, duration) ==>
      r.start < s
  {
    RunLastExtended(busy, m, RunEnd(busy, m));
  }

  /**
   * A run of two or more minutes closed by a busy minute is reported exactly
   * when it is at least as long as the meeting.
   */
  lemma ClosedRunReportedIff(busy: seq<bool>, s: nat, e: nat, duration: int)
    requires |busy| == MinutesPerDay
    requires MaximalFreeRun(busy, s, e) && e < |busy| && e - s >= 2
    ensures TimeRange(s, e) in Slots(busy, duration) <==> e - s >= duration
  {
    if duration <= MinutesPerDay {
      var before, st := SplitAtRun(busy, 0, 0, duration, s);
      UnfoldRun(busy, s, e, st, duration);
      var after := SlotsFrom(busy, e, e - 1, duration);
      SlotsFromStarts(busy, e, e - 1, duration);
      assert TimeRange(s, e) !in before;
      assert TimeRange(s, e) !in after;
    }
  }

  /**
   * The run reaching the end of the day is always reported, as the last
   * slot, whatever its length; from two minutes on it is reported exactly.
   */
  lemma TrailingRunAlwaysReported(busy: seq<bool>, s: nat, duration: int)
    requires |busy| == MinutesPerDay && duration <= MinutesPerDay
    requires MaximalFreeRun(busy, s, |busy|)
    ensures Slots(busy, duration) != []
    ensures Slots(busy, duration)[|Slots(busy, duration)| - 1].start == s
    ensures |busy| - s >= 2 ==> Slots(busy, duration)[|Slots(busy, duration)| - 1] == TimeRange(s, |busy|)
    ensures |busy| - s == 1 ==>
      Slots(busy, duration)[|Slots(busy, duration)| - 1] == TimeRange(s, LastExtended(busy, s) + 1)
  {
    var before, st := SplitAtRun(busy, 0, 0, duration, s);
    UnfoldRun(busy, s, |busy|, st, duration);
    assert SlotsFrom(busy, |busy|, RunLast(s, |busy|, st), duration) == [];
  }

  /**
   * A one-minute run closed by a busy minute is reported exactly when the
   * last minute remembered from earlier runs, taken as its last minute,
   * makes it long enough; it is then reported as [s, that minute + 1).
   */
  lemma OneMinuteRunReportedWithStaleEnd(busy: seq<bool>, s: nat, duration: int)
    requires |busy| == MinutesPerDay && duration <= MinutesPerDay
    requires MaximalFreeRun(busy, s, s + 1) && s + 1 < |busy|
    ensures (exists r :: r in Slots(busy, duration) && r.start == s) <==>
      LastExtended(busy, s) - s + 1 >= duration
    ensures LastExtended(busy, s) - s + 1 >= duration ==>
      TimeRange(s, LastExtended(busy, s) + 1) in Slots(busy, duration)
  {
    var before, st := SplitAtRun(busy, 0, 0, duration, s);
    UnfoldRun(busy, s, s + 1, st, duration);
    var slots := Slots(busy, duration);
    var head := RunSlot(s, st, false, duration);
    var after := SlotsFrom(busy, s + 1, st, duration);
    assert slots == before + head + after;
    if st - s + 1 >= duration {
      assert head == [TimeRange(s, st + 1)];
      assert TimeRange(s, st + 1) in slots;
    } else {
      assert head == [];
      SlotsFromStarts(busy, s + 1, st, duration);
      forall r | r in slots
        ensures r.start != s
      {
        assert r in before || r in after;
      }
    }
  }

  /**
   * For a meeting of one minute or more, such a run is reported only when it
   * is the first minute of the day and the meeting lasts one minute; any
   * later one is dropped because its remembered last minute lies before it.
   */
  lemma OneMinuteRunReportedIff(busy: seq<bool>, s: nat, duration: int)
    requires |busy| == MinutesPerDay && duration >= 1
    requires MaximalFreeRun(busy, s, s + 1) && s + 1 < |busy|
    ensures (exists r :: r in Slots(busy, duration) && r.start == s) <==> (s == 0 && duration == 1)
    ensures s == 0 && duration == 1 ==> TimeRange(0, 1) in Slots(busy, duration)
  {
    if duration <= MinutesPerDay {
      OneMinuteRunReportedWithStaleEnd(busy, s, duration);
    }
  }

  /**
   * For a meeting that takes no time, a one-minute run at minute 1 after a
   * busy minute 0 is reported as the empty range [1, 1).
   */
  lemma EmptySlotForZeroDuration(busy: seq<bool>)
    requires |busy| == MinutesPerDay && busy[0] && !busy[1] && busy[2]
    ensures TimeRange(1, 1) in Slots(busy, 0)
  {
    OneMinuteRunReportedWithStaleEnd(busy, 1, 0);
  }

  /** With every minute free, the whole day is one slot. */
  lemma AllFreeWholeDay(busy: seq<bool>, duration: int)
    requires |busy| == MinutesPerDay && duration <= MinutesPerDay
    requires forall m :: 0 <= m < |busy| ==> !busy[m]
    ensures Slots(busy, duration) == [TimeRange(0, MinutesPerDay)]
  {
    UnfoldRun(busy, 0, |busy|, 0, duration);
    assert SlotsFrom(busy, |busy|, |busy| - 1, duration) == [];
  }

  /**
   * With only the last minute free, the scan reports one slot starting at
   * that minute and ending at minute 1, the stale last minute plus one.
   */
  lemma OnlyLastMinuteFree(busy: seq<bool>, duration: int)
    requires |busy| == MinutesPerDay && duration <= MinutesPerDay
    requires forall m :: 0 <= m < |busy| - 1 ==> busy[m]
    requires !busy[|busy| - 1]
    ensures Slots(busy, duration) == [TimeRange(MinutesPerDay - 1, 1)]
  {
    var s := |busy| - 1;
    SkipBusy(busy, 0, s, 0, duration);
    UnfoldRun(busy, s, |busy|, 0, duration);
    assert SlotsFrom(busy, |busy|, 0, duration) == [];
  }
}
