/**
 Time-slot generation for one operating window (`generateTimeSlots`): from the
 window's start, emit the time of day and step 30 minutes, for as long as the
 current instant is strictly before the window's end.
 */
module Slots {
  import opened Wrappers
  import opened Text
  import opened Clock

  /** Minutes between consecutive slots. */
  const Step := 30

  /** Number of slots of [start, end): the 30-minute steps that begin strictly before `end`. */
  function SlotCount(start: int, end: int): nat {
    if start < end then (end - start + Step - 1) / Step else 0
  }

  /**
   The slot instants of the window [start, end), in minutes after the
   reference midnight.
   */
  function SlotMinutes(start: int, end: int): (r: seq<int>)
    ensures start >= end ==> r == []
    ensures |r| == SlotCount(start, end)
    ensures forall i :: 0 <= i < |r| ==> r[i] == start + Step * i
    ensures forall i :: 0 <= i < |r| ==> start <= r[i] < end
    ensures |r| > 0 ==> end <= r[|r| - 1] + Step
  {
    var n := SlotCount(start, end);
    forall i | 0 <= i < n
      ensures start + Step * i < end
    {
      assert Step * i <= Step * (n - 1);
    }
    seq(n, i requires 0 <= i < n => start + Step * i)
  }

  /** Slot instants strictly increase, 30 minutes apart. */
  lemma SlotMinutesIncreasing(start: int, end: int)
    ensures var r := SlotMinutes(start, end);
      forall i, j :: 0 <= i < j < |r| ==> r[i] < r[j] && r[j] - r[i] == Step * (j - i)
  {
  }

  /**
   The slot strings of a window whose bounds are written "HH:MM"; empty when
   either bound does not read as a time (the loop guard compares an invalid
   Date and is false).
   */
  function TimeSlots(start: string, end: string): seq<string>
  {
    var s, e := ClockMinutes(start), ClockMinutes(end);
    if s.Some? && e.Some? then WindowSlots(s.value, e.value) else []
  }

  /** The slot strings of the window [s, e) given in minutes. */
  function WindowSlots(s: nat, e: nat): (r: seq<string>)
    ensures |r| == SlotCount(s, e)
  {
    var mins := SlotMinutes(s, e);
    seq(|mins|, i requires 0 <= i < |mins| => Format(mins[i]))
  }

  /** The slot strings are the formatted slot instants: how many, which, and that they read back. */
  lemma TimeSlotsShape(start: string, end: string, s: nat, e: nat)
    requires ClockMinutes(start) == Some(s) && ClockMinutes(end) == Some(e)
    ensures var r := TimeSlots(start, end);
      && |r| == SlotCount(s, e)
      && (s >= e ==> r == [])
      && (forall i :: 0 <= i < |r| ==> r[i] == Format(s + Step * i))
      && (forall i :: 0 <= i < |r| ==> IsHourMinute(r[i]))
      && (forall i :: 0 <= i < |r| ==> ClockMinutes(r[i]) == Some((s + Step * i) % MinutesPerDay))
  {
    assert TimeSlots(start, end) == WindowSlots(s, e);
    WindowSlotsShape(s, e);
  }

  lemma WindowSlotsShape(s: nat, e: nat)
    ensures var r := WindowSlots(s, e);
      && (forall i :: 0 <= i < |r| ==> r[i] == Format(s + Step * i))
      && (forall i :: 0 <= i < |r| ==> IsHourMinute(r[i]))
      && (forall i :: 0 <= i < |r| ==> ClockMinutes(r[i]) == Some((s + Step * i) % MinutesPerDay))
  {
    var r := WindowSlots(s, e);
    forall i | 0 <= i < |r|
      ensures r[i] == Format(s + Step * i)
      ensures IsHourMinute(r[i])
      ensures ClockMinutes(r[i]) == Some((s + Step * i) % MinutesPerDay)
    {
      WindowSlotAt(s, e, i);
    }
  }

  /** The i-th slot string is the formatted i-th slot instant, and reads back as its time of day. */
  lemma WindowSlotAt(s: nat, e: nat, i: nat)
    requires i < SlotCount(s, e)
    ensures WindowSlots(s, e)[i] == Format(s + Step * i)
    ensures IsHourMinute(WindowSlots(s, e)[i])
    ensures ClockMinutes(WindowSlots(s, e)[i]) == Some((s + Step * i) % MinutesPerDay)
  {
    WindowSlotIs(s, e, i);
    FormattedTime(WindowSlots(s, e)[i], s + Step * i);
  }

  lemma WindowSlotIs(s: nat, e: nat, i: nat)
    requires i < SlotCount(s, e)
    ensures WindowSlots(s, e)[i] == Format(s + Step * i)
  {
    var mins := SlotMinutes(s, e);
    assert mins[i] == s + Step * i;
  }

  /** Within one day (end no later than midnight) the slots read back as exactly their instants. */
  lemma TimeSlotsWithinDay(start: string, end: string, s: nat, e: nat)
    requires ClockMinutes(start) == Some(s) && ClockMinutes(end) == Some(e)
    requires e <= MinutesPerDay
    ensures var r := TimeSlots(start, end);
      forall i :: 0 <= i < |r| ==> ClockMinutes(r[i]) == Some(s + Step * i)
  {
    assert TimeSlots(start, end) == WindowSlots(s, e);
    var r := WindowSlots(s, e);
    forall i | 0 <= i < |r|
      ensures ClockMinutes(r[i]) == Some(s + Step * i)
    {
      WindowSlotWithinDay(s, e, i);
    }
  }

  lemma WindowSlotWithinDay(s: nat, e: nat, i: nat)
    requires e <= MinutesPerDay && i < SlotCount(s, e)
    ensures ClockMinutes(WindowSlots(s, e)[i]) == Some(s + Step * i)
  {
    WindowSlotAt(s, e, i);
    SlotBeforeEnd(s, e, i);
    WithinOneDay(s + Step * i);
  }

  lemma WithinOneDay(x: int)
    requires 0 <= x < MinutesPerDay
    ensures x % MinutesPerDay == x
  {
  }

  /** Every slot instant starts before the end of the window. */
  lemma SlotBeforeEnd(s: int, e: int, i: nat)
    requires i < SlotCount(s, e)
    ensures s + Step * i < e
  {
    var mins := SlotMinutes(s, e);
    assert mins[i] == s + Step * i;
  }

  /** A bound that does not read as a time yields no slots at all. */
  lemma TimeSlotsUnreadable(start: string, end: string)
    requires ClockMinutes(start).None? || ClockMinutes(end).None?
    ensures TimeSlots(start, end) == []
  {
  }

  /** A window with any slot has both bounds readable. */
  lemma TimeSlotsReadable(start: string, end: string)
    requires |TimeSlots(start, end)| > 0
    ensures ClockMinutes(start).Some? && ClockMinutes(end).Some?
  {
  }

  /**
   The source's loop: push the current time of day, advance 30 minutes,
   while the current instant is before the end.
   */
  method GenerateTimeSlots(start: string, end: string) returns (slots: seq<string>)
    ensures slots == TimeSlots(start, end)
    ensures ClockMinutes(start).None? || ClockMinutes(end).None? ==> slots == []
    ensures ClockMinutes(start).Some? && ClockMinutes(end).Some? ==>
      |slots| == SlotCount(ClockMinutes(start).value, ClockMinutes(end).value)
  {
    slots := [];
    var s, e := ClockMinutes(start), ClockMinutes(end);
    if s.None? || e.None? {
      return;
    }
    var current := s.value;
    ghost var all := SlotMinutes(s.value, e.value);
    while current < e.value
      invariant |slots| <= |all|
      invariant current == s.value + Step * |slots|
      invariant forall i :: 0 <= i < |slots| ==> slots[i] == Format(all[i])
      decreases e.value - current
    {
      StillInWindow(s.value, e.value, |slots|);
      slots := slots + [Format(current)];
      current := current + Step;
    }
    WindowComplete(s.value, e.value, |slots|);
    WindowSlotsAre(s.value, e.value, slots);
    assert TimeSlots(start, end) == WindowSlots(s.value, e.value);
  }

  /** A step that starts before the end is one of the window's slots. */
  lemma StillInWindow(s: int, e: int, k: nat)
    requires k <= SlotCount(s, e) && s + Step * k < e
    ensures k < SlotCount(s, e)
    ensures SlotMinutes(s, e)[k] == s + Step * k
  {
    var all := SlotMinutes(s, e);
    if k > 0 {
      assert all[k - 1] == s + Step * (k - 1);
    }
  }

  /** The first step that does not start before the end is one past the last slot. */
  lemma WindowComplete(s: int, e: int, k: nat)
    requires k <= SlotCount(s, e) && s + Step * k >= e
    ensures k == SlotCount(s, e)
  {
    var all := SlotMinutes(s, e);
    if |all| > 0 {
      assert all[|all| - 1] == s + Step * (|all| - 1);
    }
  }

  /** Slot strings that format every slot instant are the window's slots. */
  lemma WindowSlotsAre(s: nat, e: nat, slots: seq<string>)
    requires |slots| == SlotCount(s, e)
    requires forall i :: 0 <= i < |slots| ==> slots[i] == Format(SlotMinutes(s, e)[i])
    ensures slots == WindowSlots(s, e)
  {
  }

  /** 09:00-10:15 gives three slots: the count rounds up, not down. */
  lemma PartialStepStillOffered()
    ensures TimeSlots("09:00", "10:15") == ["09:00", "09:30", "10:00"]
  {
    ReadNineAndQuarterPastTen();
    NineToQuarterPastTen("09:00", "10:15");
  }

  lemma NineToQuarterPastTen(start: string, end: string)
    requires ClockMinutes(start) == Some(540) && ClockMinutes(end) == Some(615)
    ensures TimeSlots(start, end) == ["09:00", "09:30", "10:00"]
  {
    var r := WindowSlots(540, 615);
    assert TimeSlots(start, end) == r;
    assert SlotCount(540, 615) == 3;
    WindowSlotIs(540, 615, 0);
    WindowSlotIs(540, 615, 1);
    WindowSlotIs(540, 615, 2);
    FormatSamples();
    ThreeElements(r, "09:00", "09:30", "10:00");
  }

  lemma ThreeElements(r: seq<string>, a: string, b: string, c: string)
    requires |r| == 3 && r[0] == a && r[1] == b && r[2] == c
    ensures r == [a, b, c]
  {
  }

  lemma ReadNineAndQuarterPastTen()
    ensures ClockMinutes("09:00") == Some(540)
    ensures ClockMinutes("10:15") == Some(615)
  {
    FormatSamples();
    ReadFormatted("09:00", 540);
    ReadFormatted("10:15", 615);
  }

  lemma ReadFormatted(t: string, m: nat)
    requires Format(m) == t && m < MinutesPerDay
    ensures ClockMinutes(t) == Some(m)
  {
    WithinOneDay(m);
    FormatThenClockMinutes(m);
  }

  lemma FormatSamples()
    ensures Format(540) == "09:00"
    ensures Format(570) == "09:30"
    ensures Format(600) == "10:00"
    ensures Format(615) == "10:15"
  {
    FormatSample(540, 0, 9, 0, 0);
    FormatSample(570, 0, 9, 3, 0);
    FormatSample(600, 1, 0, 0, 0);
    FormatSample(615, 1, 0, 1, 5);
  }

  lemma FormatSample(m: nat, h1: nat, h2: nat, m1: nat, m2: nat)
    requires h1 < 10 && h2 < 10 && m1 < 10 && m2 < 10
    requires (m / 60) % 24 == 10 * h1 + h2 && m % 60 == 10 * m1 + m2
    ensures Format(m) == [DigitChar(h1), DigitChar(h2), ':', DigitChar(m1), DigitChar(m2)]
  {
    FormatDigits(m);
  }
}
