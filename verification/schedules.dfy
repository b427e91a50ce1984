/**
 A center's weekly operating windows and the enumeration of upcoming dates
 on which the center operates (`getUpcomingScheduleDates`).

 Calendar dates are day ordinals: day 0 is 1970-01-01, a Thursday. Weekdays
 are numbered as `Date.prototype.getDay` numbers them, Sunday first, and named
 by their lower-case English names.
 */
module Schedules {

  /** One weekly operating window of a center, as the API delivers it. */
  datatype Schedule = Schedule(
    id: int,
    centerId: int,
    day: string,
    startTime: string,
    endTime: string,
    isActive: bool)

  const WeekdayNames: seq<string> :=
    ["sunday", "monday", "tuesday", "wednesday", "thursday", "friday", "saturday"]

  /** The horizon `getUpcomingScheduleDates` walks when its caller gives none. */
  const DefaultDaysAhead := 14

  /** `getDay()` of day ordinal `d`. */
  function WeekdayIndex(d: int): (w: nat)
    ensures w < 7
  {
    (d + 4) % 7
  }

  /** The lower-case English weekday name of day `d`. */
  function DayName(d: int): string {
    WeekdayNames[WeekdayIndex(d)]
  }

  /** Two days share a name exactly when they are a whole number of weeks apart. */
  lemma SameDayNameIffWeeksApart(a: int, b: int)
    ensures DayName(a) == DayName(b) <==> (a - b) % 7 == 0
  {
    WeekdayNamesDistinct();
  }

  /** Each weekday name is told apart by its first two letters. */
  lemma WeekdayNamesDistinct()
    ensures forall i, j :: 0 <= i < 7 && 0 <= j < 7 && i != j ==> WeekdayNames[i] != WeekdayNames[j]
  {
    forall i, j | 0 <= i < 7 && 0 <= j < 7 && i != j
      ensures WeekdayNames[i] != WeekdayNames[j]
    {
      assert WeekdayNames[i][0] != WeekdayNames[j][0] || WeekdayNames[i][1] != WeekdayNames[j][1];
    }
  }

  /** The `day` values of the schedules, in order (`schedules.map(s => s.day)`). */
  function ValidDays(schedules: seq<Schedule>): (days: seq<string>)
    ensures |days| == |schedules|
    ensures forall i :: 0 <= i < |schedules| ==> days[i] == schedules[i].day
  {
    seq(|schedules|, i requires 0 <= i < |schedules| => schedules[i].day)
  }

  /** Day `d` is offered iff some schedule names its weekday; `isActive` is not consulted. */
  predicate Offered(schedules: seq<Schedule>, d: int) {
    DayName(d) in ValidDays(schedules)
  }

  /**
   The offered days among the first `daysAhead` days from `today`, in
   calendar order.
   */
  function UpcomingDates(schedules: seq<Schedule>, today: int, daysAhead: int): (r: seq<int>)
    ensures |r| <= if daysAhead < 0 then 0 else daysAhead
    decreases daysAhead
  {
    if daysAhead <= 0 then []
    else
      var earlier := UpcomingDates(schedules, today, daysAhead - 1);
      var d := today + daysAhead - 1;
      if Offered(schedules, d) then earlier + [d] else earlier
  }

  /**
   The upcoming dates are ascending, lie within the horizon, and are exactly
   its offered days; none for an empty horizon or a center without schedules.
   */
  lemma {:induction false} UpcomingDatesSpec(schedules: seq<Schedule>, today: int, daysAhead: int)
    ensures var r := UpcomingDates(schedules, today, daysAhead);
      && (daysAhead <= 0 || |schedules| == 0 ==> r == [])
      && (forall i :: 0 <= i < |r| ==> today <= r[i] < today + daysAhead)
      && (forall i, j :: 0 <= i < j < |r| ==> r[i] < r[j])
      && (forall d :: d in r <==> today <= d < today + daysAhead && Offered(schedules, d))
    decreases daysAhead
  {
    if daysAhead > 0 {
      UpcomingDatesSpec(schedules, today, daysAhead - 1);
    }
  }

  /** An offered day stays offered whatever the activity flags say. */
  lemma OfferedIgnoresActivity(schedules: seq<Schedule>, flags: seq<bool>, d: int)
    requires |flags| == |schedules|
    ensures var toggled := seq(|schedules|, i requires 0 <= i < |schedules| =>
        schedules[i].(isActive := flags[i]));
      Offered(toggled, d) <==> Offered(schedules, d)
  {
    var toggled := seq(|schedules|, i requires 0 <= i < |schedules| =>
        schedules[i].(isActive := flags[i]));
    assert ValidDays(toggled) == ValidDays(schedules);
  }

  /** The source's loop over `i` from 0 below `daysAhead`. */
  method UpcomingScheduleDates(schedules: seq<Schedule>, today: int, daysAhead: int)
    returns (dates: seq<int>)
    ensures dates == UpcomingDates(schedules, today, daysAhead)
    ensures forall d :: d in dates <==> today <= d < today + daysAhead && Offered(schedules, d)
  {
    dates := [];
    var validDays := ValidDays(schedules);
    var i := 0;
    while i < daysAhead
      invariant 0 <= i <= if daysAhead < 0 then 0 else daysAhead
      invariant dates == UpcomingDates(schedules, today, i)
    {
      var date := today + i;
      UpcomingStep(schedules, today, i);
      if DayName(date) in validDays {
        dates := dates + [date];
      }
      i := i + 1;
    }
    UpcomingDatesSpec(schedules, today, daysAhead);
  }

  /** One more day of horizon appends that day exactly when it is offered. */
  lemma UpcomingStep(schedules: seq<Schedule>, today: int, i: nat)
    ensures UpcomingDates(schedules, today, i + 1) ==
      if DayName(today + i) in ValidDays(schedules)
      then UpcomingDates(schedules, today, i) + [today + i]
      else UpcomingDates(schedules, today, i)
  {
  }

  /** A strictly increasing sequence has as many distinct elements as entries. */
  lemma {:induction false} DistinctElements(r: seq<int>)
    requires forall i, j :: 0 <= i < j < |r| ==> r[i] < r[j]
    ensures |set x | x in r| == |r|
  {
    if |r| > 0 {
      var init := r[..|r| - 1];
      var last := r[|r| - 1];
      DistinctElements(init);
      assert (set x | x in r) == (set x | x in init) + {last};
      assert last !in (set x | x in init);
    }
  }

  /** A strictly increasing sequence whose values lie in {a, b}, a != b, and reach both, has length 2. */
  lemma IncreasingOverTwoValues(r: seq<int>, a: int, b: int)
    requires a < b
    requires forall i, j :: 0 <= i < j < |r| ==> r[i] < r[j]
    requires forall d :: d in r <==> d == a || d == b
    ensures |r| == 2
  {
    DistinctElements(r);
    assert (set x | x in r) == {a, b};
  }

  /**
   A center open on a single weekday is offered on exactly two dates of the
   default fortnight, whatever weekday today is.
   */
  lemma FortnightHasTwoOfEachWeekday(schedules: seq<Schedule>, today: int, w: nat)
    requires w < 7 && |schedules| > 0
    requires forall i :: 0 <= i < |schedules| ==> schedules[i].day == WeekdayNames[w]
    ensures |UpcomingDates(schedules, today, DefaultDaysAhead)| == 2
  {
    var first := NextWeekday(today, w);
    var r := UpcomingDates(schedules, today, DefaultDaysAhead);
    UpcomingDatesSpec(schedules, today, DefaultDaysAhead);
    forall d
      ensures d in r <==> d == first || d == first + 7
    {
      OfferedOnlyOn(schedules, w, d);
      SameDayNameIffWeeksApart(d, first);
      WeekStepsInFortnight(today, first, d);
    }
    IncreasingOverTwoValues(r, first, first + 7);
  }

  /** The first day from `today` on whose weekday index is `w`. */
  function NextWeekday(today: int, w: nat): (d: int)
    requires w < 7
    ensures today <= d < today + 7
    ensures WeekdayIndex(d) == w
  {
    today + (w - WeekdayIndex(today)) % 7
  }

  lemma WeekStepsInFortnight(today: int, first: int, d: int)
    requires today <= first < today + 7
    ensures (today <= d < today + 14 && (d - first) % 7 == 0) <==> (d == first || d == first + 7)
  {
    if today <= d < today + 14 && (d - first) % 7 == 0 {
      var q := (d - first) / 7;
      assert d - first == 7 * q;
      assert -1 < q < 2;
    }
  }

  lemma OfferedOnlyOn(schedules: seq<Schedule>, w: nat, d: int)
    requires w < 7 && |schedules| > 0
    requires forall i :: 0 <= i < |schedules| ==> schedules[i].day == WeekdayNames[w]
    ensures Offered(schedules, d) <==> DayName(d) == WeekdayNames[w]
  {
    var days := ValidDays(schedules);
    assert days[0] == WeekdayNames[w];
  }
}
