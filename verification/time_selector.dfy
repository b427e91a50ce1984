/**
 The booking form's time picker (`CenterTimeSelector`): for the chosen date it
 finds the first schedule of that weekday, lists the window's 30-minute slots
 and highlights the slot lying within 15 minutes of the time already chosen,
 so that a stored time off the 30-minute grid still finds its slot.
 */
module TimeSelector {
  import opened Wrappers
  import opened Text
  import opened Clock
  import opened Slots
  import opened Schedules

  /** A slot is highlighted when the chosen time is less than this many minutes from it. */
  const Tolerance := 15

  /** The component's capitalised weekday table, indexed by `getDay()`. */
  const WeekdayTitles: seq<string> :=
    ["Sunday", "Monday", "Tuesday", "Wednesday", "Thursday", "Friday", "Saturday"]

  datatype SlotButton = SlotButton(time: string, selected: bool)

  datatype View =
    | Hidden                                          // no date chosen: nothing is rendered
    | NoAppointments                                  // "no appointments on this day"
    | Choices(window: Schedule, buttons: seq<SlotButton>)

  /** The weekday name the component compares schedules against. */
  function SelectorDayName(d: int): (name: string)
    ensures name == DayName(d)
  {
    var title := WeekdayTitles[WeekdayIndex(d)];
    assert ToLower(title) == WeekdayNames[WeekdayIndex(d)];
    ToLower(title)
  }

  /** Index of the first schedule whose lower-cased day is `name` (`Array.prototype.find`). */
  function FirstMatch(schedules: seq<Schedule>, name: string): (r: Option<nat>)
    ensures r.None? <==> forall i :: 0 <= i < |schedules| ==> ToLower(schedules[i].day) != name
    ensures r.Some? ==> r.value < |schedules| && ToLower(schedules[r.value].day) == name
    ensures r.Some? ==> forall j :: 0 <= j < r.value ==> ToLower(schedules[j].day) != name
  {
    if |schedules| == 0 then None
    else if ToLower(schedules[0].day) == name then Some(0)
    else match FirstMatch(schedules[1..], name)
      case None => None
      case Some(k) => Some(k + 1)
  }

  /**
   Whether the button for `slot` is highlighted: never for an empty chosen
   time, never when either time fails to parse, otherwise when the whole
   minutes between them, truncated toward zero, are fewer than 15.
   */
  function IsSelected(slot: string, selectedTime: string): bool {
    if selectedTime == "" then false
    else match (IsoSeconds(selectedTime), IsoSeconds(slot))
      case (Some(chosen), Some(at)) => Abs(MinutesBetween(chosen, at)) < Tolerance
      case _ => false
  }

  /** Highlighting means: both times read, and they are less than 15 minutes (900 seconds) apart. */
  lemma SelectedIffWithinTolerance(slot: string, selectedTime: string)
    ensures IsSelected(slot, selectedTime) <==>
      && selectedTime != ""
      && IsoSeconds(selectedTime).Some? && IsoSeconds(slot).Some?
      && Abs(IsoSeconds(selectedTime).value - IsoSeconds(slot).value) < 60 * Tolerance
  {
    if selectedTime != "" && IsoSeconds(selectedTime).Some? && IsoSeconds(slot).Some? {
      MinutesBetweenBound(IsoSeconds(selectedTime).value, IsoSeconds(slot).value, Tolerance);
    }
  }

  function Buttons(slots: seq<string>, selectedTime: string): (b: seq<SlotButton>)
    ensures |b| == |slots|
    ensures forall i :: 0 <= i < |b| ==> b[i].time == slots[i]
    ensures forall i :: 0 <= i < |b| ==> b[i].selected == IsSelected(slots[i], selectedTime)
  {
    seq(|slots|, i requires 0 <= i < |slots| => SlotButton(slots[i], IsSelected(slots[i], selectedTime)))
  }

  /** What the component renders for a chosen date (None: the empty string) and chosen time. */
  function Render(schedules: seq<Schedule>, selectedDate: Option<int>, selectedTime: string): (v: View)
    ensures selectedDate.None? <==> v.Hidden?
    ensures v.NoAppointments? <==> (selectedDate.Some? &&
      forall i :: 0 <= i < |schedules| ==> ToLower(schedules[i].day) != DayName(selectedDate.value))
    ensures v.Choices? ==> exists k ::
      (0 <= k < |schedules| && v.window == schedules[k] &&
       ToLower(schedules[k].day) == DayName(selectedDate.value) &&
       forall j :: 0 <= j < k ==> ToLower(schedules[j].day) != DayName(selectedDate.value))
    ensures v.Choices? ==> (|v.buttons| == |TimeSlots(v.window.startTime, v.window.endTime)| &&
      forall i :: 0 <= i < |v.buttons| ==> v.buttons[i].time == TimeSlots(v.window.startTime, v.window.endTime)[i])
    ensures v.Choices? ==>
      forall i :: 0 <= i < |v.buttons| ==> v.buttons[i].selected == IsSelected(v.buttons[i].time, selectedTime)
  {
    match selectedDate
    case None => Hidden
    case Some(d) =>
      match FirstMatch(schedules, SelectorDayName(d))
      case None => NoAppointments
      case Some(k) =>
        var window := schedules[k];
        Choices(window, Buttons(TimeSlots(window.startTime, window.endTime), selectedTime))
  }

  /** The window's slots fit in one day, so no time of day repeats among them. */
  predicate SpansAtMostADay(window: Schedule) {
    match (ClockMinutes(window.startTime), ClockMinutes(window.endTime))
    case (Some(s), Some(e)) => e <= s + MinutesPerDay
    case _ => true
  }

  /** Times of day of two different slots of a day-long window are at least one step apart. */
  lemma SlotTimesApart(s: int, i: nat, j: nat)
    requires s >= 0 && i < j && Step * (j - i) < MinutesPerDay
    ensures Abs((s + Step * i) % MinutesPerDay - (s + Step * j) % MinutesPerDay) >= Step
  {
    var x := (s + Step * i) % MinutesPerDay;
    var gap := Step * (j - i);
    assert s + Step * j == (s + Step * i) + gap;
    assert (s + Step * j) % MinutesPerDay == (x + gap) % MinutesPerDay;
  }

  /** With 30-minute steps and a strict 15-minute tolerance, at most one slot is highlighted. */
  lemma AtMostOneSelected(schedules: seq<Schedule>, selectedDate: Option<int>, selectedTime: string)
    requires var v := Render(schedules, selectedDate, selectedTime);
      v.Choices? ==> SpansAtMostADay(v.window)
    ensures var v := Render(schedules, selectedDate, selectedTime);
      v.Choices? ==> forall i, j :: (0 <= i < |v.buttons| && 0 <= j < |v.buttons| &&
        v.buttons[i].selected && v.buttons[j].selected) ==> i == j
  {
    var v := Render(schedules, selectedDate, selectedTime);
    if v.Choices? {
      forall i, j | 0 <= i < j < |v.buttons|
        ensures !(v.buttons[i].selected && v.buttons[j].selected)
      {
        NotBothSelected(v.window, selectedTime, i, j);
      }
    }
  }

  lemma NotBothSelected(window: Schedule, selectedTime: string, i: nat, j: nat)
    requires SpansAtMostADay(window)
    requires i < j < |TimeSlots(window.startTime, window.endTime)|
    ensures var slots := TimeSlots(window.startTime, window.endTime);
      !(IsSelected(slots[i], selectedTime) && IsSelected(slots[j], selectedTime))
  {
    var slots := TimeSlots(window.startTime, window.endTime);
    TimeSlotsReadable(window.startTime, window.endTime);
    var s, e := ClockMinutes(window.startTime).value, ClockMinutes(window.endTime).value;
    assert e <= s + MinutesPerDay;
    SlotSecondsApart(window.startTime, window.endTime, s, e, i, j);
    NotBothNear(slots[i], slots[j], selectedTime);
  }

  /** Two different slots of a day-long window are at least 30 minutes apart once read back. */
  lemma SlotSecondsApart(start: string, end: string, s: nat, e: nat, i: nat, j: nat)
    requires ClockMinutes(start) == Some(s) && ClockMinutes(end) == Some(e)
    requires e <= s + MinutesPerDay
    requires i < j < |TimeSlots(start, end)|
    ensures var slots := TimeSlots(start, end);
      && IsoSeconds(slots[i]).Some? && IsoSeconds(slots[j]).Some?
      && Abs(IsoSeconds(slots[i]).value - IsoSeconds(slots[j]).value) >= 60 * Step
  {
    SlotCountWithinDay(s, e, j);
    SlotTimesApart(s, i, j);
    SlotReadsBack(start, end, s, e, i);
    SlotReadsBack(start, end, s, e, j);
  }

  /** `parseISO` reads the `k`-th slot string as the start of its time-of-day minute. */
  lemma SlotReadsBack(start: string, end: string, s: nat, e: nat, k: nat)
    requires ClockMinutes(start) == Some(s) && ClockMinutes(end) == Some(e)
    requires k < |TimeSlots(start, end)|
    ensures IsoSeconds(TimeSlots(start, end)[k]) == Some(60 * ((s + Step * k) % MinutesPerDay))
  {
    TimeSlotsShape(start, end, s, e);
    FormatThenIsoSeconds(s + Step * k);
  }

  lemma NotBothNear(a: string, b: string, selectedTime: string)
    requires IsoSeconds(a).Some? && IsoSeconds(b).Some?
    requires Abs(IsoSeconds(a).value - IsoSeconds(b).value) >= 60 * Step
    ensures !(IsSelected(a, selectedTime) && IsSelected(b, selectedTime))
  {
    SelectedIffWithinTolerance(a, selectedTime);
    SelectedIffWithinTolerance(b, selectedTime);
  }

  lemma SlotCountWithinDay(s: int, e: int, j: nat)
    requires e <= s + MinutesPerDay && j < SlotCount(s, e)
    ensures Step * j < MinutesPerDay
  {
  }

  /** No chosen time, no highlighted slot. */
  lemma EmptyTimeSelectsNothing(schedules: seq<Schedule>, selectedDate: Option<int>)
    ensures var v := Render(schedules, selectedDate, "");
      v.Choices? ==> forall i :: 0 <= i < |v.buttons| ==> !v.buttons[i].selected
  {
  }

  /**
   The value the `i`-th slot button reports when clicked: that slot's own
   "HH:MM", unchanged, which is the `i`-th generated slot.
   */
  function OnClick(schedules: seq<Schedule>, d: int, selectedTime: string, i: nat): (time: string)
    requires var v := Render(schedules, Some(d), selectedTime); v.Choices? && i < |v.buttons|
    ensures var v := Render(schedules, Some(d), selectedTime);
      time == TimeSlots(v.window.startTime, v.window.endTime)[i] && IsHourMinute(time)
  {
    var v := Render(schedules, Some(d), selectedTime);
    var s, e := ClockMinutes(v.window.startTime).value, ClockMinutes(v.window.endTime).value;
    TimeSlotsShape(v.window.startTime, v.window.endTime, s, e);
    v.buttons[i].time
  }

  /**
   Clicking a slot and rendering again with the reported time highlights that
   slot and no other.
   */
  lemma ClickSelectsExactlyThatSlot(schedules: seq<Schedule>, d: int, before: string, i: nat)
    requires var v := Render(schedules, Some(d), before);
      v.Choices? && i < |v.buttons| && SpansAtMostADay(v.window)
    ensures var v := Render(schedules, Some(d), before);
      var after := Render(schedules, Some(d), v.buttons[i].time);
      && after.Choices? && after.window == v.window
      && forall j :: 0 <= j < |after.buttons| ==> (after.buttons[j].selected <==> j == i)
  {
    var v := Render(schedules, Some(d), before);
    var chosen := v.buttons[i].time;
    var after := Render(schedules, Some(d), chosen);
    var k := FirstMatch(schedules, SelectorDayName(d)).value;
    assert v.window == schedules[k] == after.window;
    SlotSelectsItself(v.window, i);
    assert after.buttons[i].selected;
    AtMostOneSelected(schedules, Some(d), chosen);
  }

  /** The i-th slot of a window, taken as the chosen time, highlights itself. */
  lemma SlotSelectsItself(window: Schedule, i: nat)
    requires i < |TimeSlots(window.startTime, window.endTime)|
    ensures var slot := TimeSlots(window.startTime, window.endTime)[i]; IsSelected(slot, slot)
  {
    TimeSlotsReadable(window.startTime, window.endTime);
    var s, e := ClockMinutes(window.startTime).value, ClockMinutes(window.endTime).value;
    TimeSlotsShape(window.startTime, window.endTime, s, e);
    FormatThenIsoSeconds(s + Step * i);
    SelfSelected(TimeSlots(window.startTime, window.endTime)[i]);
  }

  /** A readable, non-empty time highlights its own slot. */
  lemma SelfSelected(slot: string)
    requires IsoSeconds(slot).Some?
    ensures IsSelected(slot, slot)
  {
    assert |slot| == 5 || |slot| == 8;
    SelectedIffWithinTolerance(slot, slot);
  }

  /** A stored "10:05" highlights the 10:00 slot of 09:00-11:00 and neither neighbour. */
  lemma OffGridTimeFindsItsSlot()
    ensures IsSelected("10:00", "10:05")
    ensures !IsSelected("09:30", "10:05") && !IsSelected("10:30", "10:05")
  {
    SelectedIffWithinTolerance("10:00", "10:05");
    SelectedIffWithinTolerance("09:30", "10:05");
    SelectedIffWithinTolerance("10:30", "10:05");
  }

  /** A legacy "HH:MM:SS" counts whole minutes toward zero: 14.5 minutes is near, 15.5 is not. */
  lemma SecondsAreTruncated()
    ensures IsSelected("10:00", "09:45:30")
    ensures !IsSelected("09:30", "09:45:30")
  {
    SelectedIffWithinTolerance("10:00", "09:45:30");
    SelectedIffWithinTolerance("09:30", "09:45:30");
  }

  /** Every date the date picker offers opens a time picker with a window (never "no appointments"). */
  lemma OfferedDatesHaveWindow(schedules: seq<Schedule>, today: int, daysAhead: int, d: int, selectedTime: string)
    requires d in UpcomingDates(schedules, today, daysAhead)
    ensures Render(schedules, Some(d), selectedTime).Choices?
  {
    UpcomingDatesSpec(schedules, today, daysAhead);
    var days := ValidDays(schedules);
    assert DayName(d) in days;
    var k :| 0 <= k < |schedules| && days[k] == DayName(d);
    ToLowerFixesLower(DayName(d));
    assert IsLower(DayName(d)) by {
      NamesAreLower(WeekdayIndex(d));
    }
    assert ToLower(schedules[k].day) == DayName(d);
  }

  lemma NamesAreLower(w: nat)
    requires w < 7
    ensures IsLower(WeekdayNames[w])
  {
  }

  /**
   The time picker lower-cases schedule days but the date picker does not: a
   window stored under "Monday" yields Monday slots for a Monday the date
   picker never offers.
   */
  lemma CapitalisedDayOnlyInTimePicker(window: Schedule, d: int, selectedTime: string)
    requires window.day == "Monday" && WeekdayIndex(d) == 1
    ensures Render([window], Some(d), selectedTime).Choices?
    ensures !Offered([window], d)
  {
    assert ToLower(window.day) == "monday";
    assert ValidDays([window]) == ["Monday"];
  }
}
