/**
 Wall-clock times of day. Three readings of a time string appear in the
 portal and each is modelled on its own terms:
 - `ClockMinutes`: what `generateTimeSlots` does with `split(":").map(Number)`
   and `new Date(0, 0, 0, h, m)` -- the first two fields as numbers, with
   overflowing hours or minutes rolling over into later minutes;
 - `Format`: `toTimeString().slice(0, 5)`, the two-digit "HH:MM" of the time of day;
 - `IsoSeconds`: `parseISO` on a "HH:MM" or "HH:MM:SS" time, to the second.
 */
module Clock {
  import opened Wrappers
  import opened Text

  const MinutesPerDay := 1440

  /** `Number(part)` for the parts the model accepts: "" reads as 0, a digit string as its value. */
  function FieldValue(part: string): (r: Option<nat>)
    ensures r.Some? <==> AllDigits(part)
  {
    if AllDigits(part) then Some(DecimalValue(part)) else None
  }

  /**
   Minutes after the reference midnight of the instant `new Date(0, 0, 0, h, m)`
   built from the first two colon-separated fields of `s`; None when either
   field is missing or not a number (an invalid Date).
   */
  function ClockMinutes(s: string): (r: Option<nat>)
    ensures r.Some? <==>
      var parts := Split(s, ':');
      |parts| >= 2 && AllDigits(parts[0]) && AllDigits(parts[1])
    ensures r.Some? ==>
      var parts := Split(s, ':');
      && |parts| >= 2 && AllDigits(parts[0]) && AllDigits(parts[1])
      && r.value == 60 * DecimalValue(parts[0]) + DecimalValue(parts[1])
  {
    var parts := Split(s, ':');
    if |parts| < 2 then None
    else match (FieldValue(parts[0]), FieldValue(parts[1]))
      case (Some(h), Some(m)) => Some(60 * h + m)
      case _ => None
  }

  function TwoDigits(n: nat): (s: string)
    requires n < 100
    ensures |s| == 2 && AllDigits(s) && DecimalValue(s) == n
  {
    var s := [DigitChar(n / 10), DigitChar(n % 10)];
    TwoDigitValue(s);
    s
  }

  /** "HH:MM" of the time of day `m` minutes after some midnight. */
  function Format(m: nat): (s: string)
    ensures |s| == 5 && s[2] == ':'
  {
    TwoDigits((m / 60) % 24) + ":" + TwoDigits(m % 60)
  }

  /** The five characters of a formatted time. */
  lemma FormatDigits(m: nat)
    ensures var h, mi := (m / 60) % 24, m % 60;
      Format(m) == [DigitChar(h / 10), DigitChar(h % 10), ':', DigitChar(mi / 10), DigitChar(mi % 10)]
  {
  }

  /** Reading a formatted time with the slot generator's parser gives the time of day back. */
  lemma FormatThenClockMinutes(m: nat)
    ensures ClockMinutes(Format(m)) == Some(m % MinutesPerDay)
  {
    var h, mi := (m / 60) % 24, m % 60;
    var hh, mm := TwoDigits(h), TwoDigits(mi);
    assert Format(m) == Join([hh, mm], ':');
    SplitJoin([hh, mm], ':');
    assert Split(Format(m), ':') == [hh, mm];
    assert FieldValue(hh) == Some(h) && FieldValue(mm) == Some(mi);
    TimeOfDay(m);
  }

  /** Well-formed two-digit "HH:MM", hours below 24 and minutes below 60. */
  predicate IsHourMinute(s: string) {
    && |s| == 5 && s[2] == ':'
    && IsDigit(s[0]) && IsDigit(s[1]) && IsDigit(s[3]) && IsDigit(s[4])
    && DecimalValue(s[0..2]) < 24 && DecimalValue(s[3..5]) < 60
  }

  /** What each parser makes of a formatted time. */
  lemma FormattedTime(t: string, m: nat)
    requires t == Format(m)
    ensures IsHourMinute(t)
    ensures ClockMinutes(t) == Some(m % MinutesPerDay)
    ensures IsoSeconds(t) == Some(60 * (m % MinutesPerDay))
  {
    FormatIsHourMinute(m);
    FormatThenClockMinutes(m);
    FormatThenIsoSeconds(m);
  }

  /** Every formatted time is well formed, and a well-formed time formats back to itself. */
  lemma FormatIsHourMinute(m: nat)
    ensures IsHourMinute(Format(m))
  {
    var s := Format(m);
    assert s[0..2] == TwoDigits((m / 60) % 24);
    assert s[3..5] == TwoDigits(m % 60);
  }

  lemma HourMinuteRoundTrip(s: string)
    requires IsHourMinute(s)
    ensures ClockMinutes(s).Some?
    ensures Format(ClockMinutes(s).value) == s
  {
    var hh, mm := s[0..2], s[3..5];
    assert s == hh + ":" + mm;
    assert s == Join([hh, mm], ':');
    SplitJoin([hh, mm], ':');
    var h, m := DecimalValue(hh), DecimalValue(mm);
    assert ClockMinutes(s) == Some(60 * h + m);
    FormatOf(h, m);
    TwoDigitsUnique(hh, TwoDigits(h));
    TwoDigitsUnique(mm, TwoDigits(m));
  }

  /** Formatting hours and minutes of the day writes each as two digits. */
  lemma FormatOf(h: nat, m: nat)
    requires h < 24 && m < 60
    ensures Format(60 * h + m) == TwoDigits(h) + ":" + TwoDigits(m)
  {
    HoursAndMinutes(h, m);
  }

  lemma HoursAndMinutes(h: nat, m: nat)
    requires h < 24 && m < 60
    ensures (60 * h + m) / 60 == h && (60 * h + m) % 60 == m && h % 24 == h
  {
  }

  lemma TwoDigitsUnique(a: string, b: string)
    requires |a| == 2 && |b| == 2 && AllDigits(a) && AllDigits(b)
    requires DecimalValue(a) == DecimalValue(b)
    ensures a == b
  {
    TwoDigitValue(a);
    TwoDigitValue(b);
  }

  lemma TwoDigitValue(s: string)
    requires |s| == 2 && AllDigits(s)
    ensures DecimalValue(s) == 10 * DigitValue(s[0]) + DigitValue(s[1])
  {
    var first := s[..1];
    assert first == [s[0]];
    assert first[..0] == [];
    assert DecimalValue(first) == DigitValue(s[0]);
  }

  /** The value of the two digits of `s` at `i` and `i + 1`. */
  function Pair(s: string, i: nat): (v: nat)
    requires DigitsAt(s, i)
    ensures v < 100
  {
    10 * DigitValue(s[i]) + DigitValue(s[i + 1])
  }

  predicate DigitsAt(s: string, i: nat)
  {
    i + 1 < |s| && IsDigit(s[i]) && IsDigit(s[i + 1])
  }

  /** The range checks of `parseISO`: hour 24 only as 24:00:00. */
  predicate ValidTime(h: nat, m: nat, sec: nat) {
    m < 60 && sec < 60 && (h < 24 || (h == 24 && m == 0 && sec == 0))
  }

  /**
   Seconds after midnight of a time written "HH:MM" or "HH:MM:SS" as
   `parseISO` reads it; None for anything else (an invalid Date).
   */
  function IsoSeconds(s: string): (r: Option<nat>)
    ensures r.Some? ==> r.value <= 24 * 3600
    ensures r.Some? ==> |s| == 5 || |s| == 8
  {
    if (|s| == 5 || |s| == 8) && DigitsAt(s, 0) && s[2] == ':' && DigitsAt(s, 3) then
      var h, m := Pair(s, 0), Pair(s, 3);
      if |s| == 5 then
        if ValidTime(h, m, 0) then Some(3600 * h + 60 * m) else None
      else if s[5] == ':' && DigitsAt(s, 6) && ValidTime(h, m, Pair(s, 6)) then
        Some(3600 * h + 60 * m + Pair(s, 6))
      else None
    else None
  }

  /** `parseISO` reads "HH:MM" as that hour and minute, 24:00 included. */
  lemma IsoSecondsOfHourMinute(h: nat, m: nat)
    requires ValidTime(h, m, 0)
    ensures IsoSeconds(TwoDigits(h) + ":" + TwoDigits(m)) == Some(3600 * h + 60 * m)
  {
    var s := TwoDigits(h) + ":" + TwoDigits(m);
    PairOfTwoDigits(s, 0, h);
    PairOfTwoDigits(s, 3, m);
  }

  /** `parseISO` reads "HH:MM:SS" to the second, 24:00:00 included. */
  lemma IsoSecondsOfHourMinuteSecond(h: nat, m: nat, sec: nat)
    requires ValidTime(h, m, sec)
    ensures IsoSeconds(TwoDigits(h) + ":" + TwoDigits(m) + ":" + TwoDigits(sec)) ==
      Some(3600 * h + 60 * m + sec)
  {
    var s := TwoDigits(h) + ":" + TwoDigits(m) + ":" + TwoDigits(sec);
    PairOfTwoDigits(s, 0, h);
    PairOfTwoDigits(s, 3, m);
    PairOfTwoDigits(s, 6, sec);
  }

  /**
   Only those two renderings read: a time `parseISO` accepts is the two-digit
   "HH:MM" or "HH:MM:SS" of an in-range hour, minute and second.
   */
  lemma IsoSecondsReadsOnly(t: string)
    requires IsoSeconds(t).Some?
    ensures DigitsAt(t, 0) && DigitsAt(t, 3)
    ensures |t| == 5 ==>
      && ValidTime(Pair(t, 0), Pair(t, 3), 0)
      && t == TwoDigits(Pair(t, 0)) + ":" + TwoDigits(Pair(t, 3))
    ensures |t| == 8 ==>
      && DigitsAt(t, 6)
      && ValidTime(Pair(t, 0), Pair(t, 3), Pair(t, 6))
      && t == TwoDigits(Pair(t, 0)) + ":" + TwoDigits(Pair(t, 3)) + ":" + TwoDigits(Pair(t, 6))
  {
    PairDigits(t, 0);
    PairDigits(t, 3);
    if |t| == 5 {
      assert t == t[0..2] + ":" + t[3..5];
    } else {
      PairDigits(t, 6);
      assert t == t[0..2] + ":" + t[3..5] + ":" + t[6..8];
    }
  }

  /** Two-digit text at `i` reads as its number. */
  lemma PairOfTwoDigits(s: string, i: nat, n: nat)
    requires n < 100 && i + 1 < |s| && s[i..i + 2] == TwoDigits(n)
    ensures DigitsAt(s, i) && Pair(s, i) == n
  {
    var d := TwoDigits(n);
    TwoDigitValue(d);
    assert s[i] == d[0] && s[i + 1] == d[1];
  }

  /** Two digits are the two-digit rendering of their value. */
  lemma PairDigits(s: string, i: nat)
    requires DigitsAt(s, i)
    ensures TwoDigits(Pair(s, i)) == s[i..i + 2]
  {
    var a, b := DigitValue(s[i]), DigitValue(s[i + 1]);
    assert (10 * a + b) / 10 == a && (10 * a + b) % 10 == b;
    DigitCharValue(s[i]);
    DigitCharValue(s[i + 1]);
  }

  lemma DigitCharValue(c: char)
    requires IsDigit(c)
    ensures DigitChar(DigitValue(c)) == c
  {
  }

  /** `parseISO` reads a formatted slot time as the start of its minute. */
  lemma FormatThenIsoSeconds(m: nat)
    ensures IsoSeconds(Format(m)) == Some(60 * (m % MinutesPerDay))
  {
    var s := Format(m);
    var h, mi := (m / 60) % 24, m % 60;
    var hh, mm := TwoDigits(h), TwoDigits(mi);
    assert s == hh + ":" + mm;
    TwoDigitValue(hh);
    TwoDigitValue(mm);
    assert s[0] == hh[0] && s[1] == hh[1] && s[3] == mm[0] && s[4] == mm[1];
    assert Pair(s, 0) == h;
    assert Pair(s, 3) == mi;
    TimeOfDay(m);
  }

  /** Hours of the day and minutes of the hour recombine to the minute of the day. */
  lemma TimeOfDay(m: nat)
    ensures 60 * ((m / 60) % 24) + m % 60 == m % MinutesPerDay
  {
    var q, r := m / MinutesPerDay, m % MinutesPerDay;
    var h, mi := r / 60, r % 60;
    assert m == 60 * (24 * q + h) + mi;
    assert m / 60 == 24 * q + h;
    assert m % 60 == mi;
    assert (24 * q + h) % 24 == h;
  }

  /**
   `differenceInMinutes` between two instants given in seconds: the difference
   divided by 60 and truncated toward zero.
   */
  function MinutesBetween(a: int, b: int): (r: int)
    ensures a >= b ==> 0 <= r && 60 * r <= a - b < 60 * r + 60
    ensures a < b ==> r <= 0 && 60 * r - 60 < a - b <= 60 * r
  {
    if a >= b then (a - b) / 60 else -((b - a) / 60)
  }

  function Abs(x: int): nat {
    if x < 0 then -x else x
  }

  /** Truncation keeps a strict bound: fewer than `k` whole minutes apart iff fewer than `60 k` seconds. */
  lemma MinutesBetweenBound(a: int, b: int, k: nat)
    requires k > 0
    ensures Abs(MinutesBetween(a, b)) < k <==> Abs(a - b) < 60 * k
  {
  }
}
