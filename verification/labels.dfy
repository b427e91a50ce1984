/**
 The small display helpers of the portal: gender and status labels, status
 badge colours, the ":00" time normalisation, Arabic-Indic digits and the
 same-day countdown ("in 2 hours and 5 minutes") shown for appointments.
 */
module Labels {
  import opened Wrappers
  import opened Text
  import Clock

  /** "Unspecified": the fallback label. */
  const Unspecified := "غير محدد"

  // ---------------------------------------------------------------- gender

  /** Exact, case-sensitive match on "male" and "female"; anything else is unspecified. */
  function GenderLabel(gender: Option<string>): (r: string)
    ensures r == "ذكر" <==> gender == Some("male")
    ensures r == "أنثى" <==> gender == Some("female")
    ensures r == Unspecified <==> gender != Some("male") && gender != Some("female")
  {
    match gender
    case Some("male") => "ذكر"
    case Some("female") => "أنثى"
    case _ => Unspecified
  }

  // ---------------------------------------------------------------- status

  const StatusLabels: map<string, string> := map[
    "active" := "نشط",
    "inactive" := "غير نشط",
    "pending" := "قيد الانتظار",
    "cancelled" := "ملغي",
    "completed" := "مكتمل",
    "failed" := "فشل",
    "processing" := "قيد المعالجة",
    "draft" := "مسودة",
    "approved" := "موافق عليه",
    "rejected" := "مرفوض",
    "refunded" := "مسترد",
    "shipped" := "تم الشحن",
    "delivered" := "تم التسليم",
    "confirmed" := "مؤكد"
  ]

  /** Absent or empty: no status to look up (the source's `!status`). */
  predicate Blank(status: Option<string>) {
    status.None? || status.value == ""
  }

  /**
   The label of a status, looked up by its lower-cased form among the
   table's own keys; the fallback otherwise.
   */
  function StatusLabel(status: Option<string>): (r: string)
    ensures r == Unspecified || r in StatusLabels.Values
    ensures r != Unspecified <==> !Blank(status) && ToLower(status.value) in StatusLabels
    ensures !Blank(status) && ToLower(status.value) in StatusLabels ==>
      r == StatusLabels[ToLower(status.value)]
  {
    if Blank(status) then Unspecified
    else
      var key := ToLower(status.value);
      if key in StatusLabels then StatusLabels[key] else Unspecified
  }

  /** Statuses that differ only in letter case get the same label. */
  lemma StatusLabelIgnoresCase(a: string, b: string)
    requires ToLower(a) == ToLower(b)
    ensures StatusLabel(Some(a)) == StatusLabel(Some(b))
  {
  }

  /**
   Every own property name of an object literal's prototype
   (`Object.prototype`), which a bracket lookup on the label table also finds.
   A lower-cased key can only ever be "constructor" or "__proto__": every
   other name contains a capital letter.
   */
  const ObjectPrototypeMembers: set<string> := {
    "constructor", "__proto__", "hasOwnProperty", "isPrototypeOf",
    "propertyIsEnumerable", "toString", "toLocaleString", "valueOf",
    "__defineGetter__", "__defineSetter__", "__lookupGetter__", "__lookupSetter__"
  }

  /** What the source's lookup yields: a label string, or an inherited prototype member. */
  datatype LookupValue = LabelText(text: string) | InheritedMember(name: string)

  /**
   The source's `STATUS_LABELS[normalized] ?? default`: a plain-object lookup,
   which falls through to `Object.prototype` for names the table lacks, and
   `??` keeps whatever non-nullish value it finds there.
   */
  function StatusLabelAsWritten(status: Option<string>): (r: LookupValue)
    ensures r.InheritedMember? <==>
      && !Blank(status)
      && ToLower(status.value) !in StatusLabels
      && ToLower(status.value) in ObjectPrototypeMembers
    ensures r.InheritedMember? ==> r.name == ToLower(status.value)
  {
    if Blank(status) then LabelText(Unspecified)
    else
      var key := ToLower(status.value);
      if key in StatusLabels then LabelText(StatusLabels[key])
      else if key in ObjectPrototypeMembers then InheritedMember(key)
      else LabelText(Unspecified)
  }

  /** The status "Constructor" gets the `Object` constructor, not a label. */
  lemma ConstructorStatusIsNotALabel()
    ensures StatusLabelAsWritten(Some("Constructor")) == InheritedMember("constructor")
    ensures StatusLabel(Some("Constructor")) == Unspecified
  {
    assert ToLower("Constructor") == "constructor";
  }

  /** Away from prototype names the lookup as written and the corrected one agree. */
  lemma StatusLabelAgreesOffPrototype(status: Option<string>)
    requires Blank(status) || ToLower(status.value) in StatusLabels ||
      ToLower(status.value) !in ObjectPrototypeMembers
    ensures StatusLabelAsWritten(status) == LabelText(StatusLabel(status))
  {
  }

  // ---------------------------------------------------------------- colours

  const NoStatusColor := "bg-gray-200"
  const DefaultColor := "bg-gray-200 text-gray-600"
  const GreenColor := "bg-green-200 text-green-600"
  const AmberColor := "bg-amber-200 text-amber-600"
  const RedColor := "bg-red-200 text-red-600"
  const GreyColor := "bg-gray-300 text-gray-500"
  const OrangeColor := "bg-orange-200 text-orange-600"

  /** The statuses with a colour of their own. */
  const ColouredStatuses: set<string> :=
    {"active", "pending", "cancelled", "confirmed", "completed", "failed"}

  /** The badge colour of a status, chosen case-insensitively. */
  function StatusColor(status: Option<string>): (r: string)
    ensures r == NoStatusColor <==> Blank(status)
    ensures r == GreenColor <==> !Blank(status) && ToLower(status.value) in {"active", "confirmed"}
    ensures r == AmberColor <==> !Blank(status) && ToLower(status.value) == "pending"
    ensures r == RedColor <==> !Blank(status) && ToLower(status.value) == "cancelled"
    ensures r == GreyColor <==> !Blank(status) && ToLower(status.value) == "completed"
    ensures r == OrangeColor <==> !Blank(status) && ToLower(status.value) == "failed"
    ensures r == DefaultColor <==> !Blank(status) && ToLower(status.value) !in ColouredStatuses
  {
    if Blank(status) then NoStatusColor
    else match ToLower(status.value)
      case "active" => GreenColor
      case "pending" => AmberColor
      case "cancelled" => RedColor
      case "confirmed" => GreenColor
      case "completed" => GreyColor
      case "failed" => OrangeColor
      case _ => DefaultColor
  }

  /** Statuses that differ only in letter case get the same colour. */
  lemma StatusColorIgnoresCase(a: string, b: string)
    requires ToLower(a) == ToLower(b)
    ensures StatusColor(Some(a)) == StatusColor(Some(b))
  {
  }

  /** Every status with its own colour also has its own label. */
  lemma ColouredStatusesAreLabelled(status: string)
    requires StatusColor(Some(status)) != DefaultColor && status != ""
    ensures StatusLabel(Some(status)) != Unspecified
  {
  }

  // ---------------------------------------------------------------- times

  /** "HH:MM" gains ":00" seconds; a string with any other number of colons is kept. */
  function NormalizeTime(time: string): (r: string)
    ensures Count(time, ':') == 1 ==> r == time + ":00"
    ensures Count(time, ':') != 1 ==> r == time
  {
    if |Split(time, ':')| == 2 then time + ":00" else time
  }

  lemma {:induction false} CountAppend(a: string, b: string, c: char)
    ensures Count(a + b, c) == Count(a, c) + Count(b, c)
    decreases |a|
  {
    if |a| > 0 {
      assert (a + b)[1..] == a[1..] + b;
      CountAppend(a[1..], b, c);
    } else {
      assert a + b == b;
    }
  }

  /** Normalising twice is normalising once. */
  lemma NormalizeTimeIdempotent(time: string)
    ensures NormalizeTime(NormalizeTime(time)) == NormalizeTime(time)
  {
    if Count(time, ':') == 1 {
      CountAppend(time, ":00", ':');
    }
  }

  /**
   Normalising a well-formed "HH:MM" does not move the instant read from the
   date-time string; `Clock.IsoSeconds` stands in for how `new Date` reads the
   local "THH:MM" and "THH:MM:SS" forms.
   */
  lemma NormalizeTimeKeepsInstant(time: string)
    requires Clock.IsHourMinute(time)
    ensures Clock.IsoSeconds(NormalizeTime(time)).Some?
    ensures Clock.IsoSeconds(NormalizeTime(time)) == Clock.IsoSeconds(time)
  {
    assert time == time[..2] + [':'] + time[3..];
    CountAppend(time[..2], [':'] + time[3..], ':');
    CountAppend([':'], time[3..], ':');
    var full := time + ":00";
    assert full[6..8] == "00";
    Clock.TwoDigitValue(time[0..2]);
    Clock.TwoDigitValue(time[3..5]);
  }

  /**
   The shape gate of `parseLibyanDate`: a "day/month/year" input must split
   on "/" into exactly three fields, which are handed on in order.
   */
  function LibyanDateFields(input: string): (r: Option<seq<string>>)
    ensures r.Some? <==> Count(input, '/') == 2
    ensures r.Some? ==> |r.value| == 3 && Join(r.value, '/') == input
  {
    var parts := Split(input, '/');
    JoinSplit(input, '/');
    if |parts| != 3 then None else Some(parts)
  }

  // ---------------------------------------------------------------- digits

  predicate IsArabicDigit(c: char) {
    '\U{0660}' <= c <= '\U{0669}'
  }

  /** Each ASCII digit becomes the Arabic-Indic digit of the same value; other characters stay. */
  function ToArabicDigits(s: string): (r: string)
    ensures |r| == |s|
    ensures forall i :: 0 <= i < |s| && IsDigit(s[i]) ==>
      IsArabicDigit(r[i]) && r[i] as int - 0x0660 == DigitValue(s[i])
    ensures forall i :: 0 <= i < |s| && !IsDigit(s[i]) ==> r[i] == s[i]
  {
    seq(|s|, i requires 0 <= i < |s| =>
      if IsDigit(s[i]) then (0x0660 + DigitValue(s[i])) as char else s[i])
  }

  /** Reads Arabic-Indic digits back as ASCII digits. */
  function FromArabicDigits(s: string): (r: string)
    ensures |r| == |s|
  {
    seq(|s|, i requires 0 <= i < |s| =>
      if IsArabicDigit(s[i]) then DigitChar(s[i] as int - 0x0660) else s[i])
  }

  /** Transliteration is undone by reading back, for text without Arabic-Indic digits. */
  lemma ArabicDigitsRoundTrip(s: string)
    requires forall i :: 0 <= i < |s| ==> !IsArabicDigit(s[i])
    ensures FromArabicDigits(ToArabicDigits(s)) == s
  {
  }

  /** A number written with Arabic-Indic digits. */
  function ArabicNumber(n: nat): (r: string)
    ensures |r| >= 1
    ensures forall i :: 0 <= i < |r| ==> IsArabicDigit(r[i])
  {
    ToArabicDigits(Decimal(n))
  }

  /** The digits shown read back as the number. */
  lemma ArabicNumberRoundTrip(n: nat)
    ensures DecimalValue(FromArabicDigits(ArabicNumber(n))) == n
  {
    var d := Decimal(n);
    assert forall i :: 0 <= i < |d| ==> !IsArabicDigit(d[i]);
    ArabicDigitsRoundTrip(d);
    DecimalRoundTrip(n);
  }

  // ---------------------------------------------------------------- countdown

  /** The same-day countdown: already due, or hours and minutes to go. */
  datatype Countdown = Now | After(hours: nat, minutes: nat)

  /** Splits a positive minute difference into whole hours and the remaining minutes. */
  function SameDayCountdown(diffMinutes: int): (c: Countdown)
    ensures c.Now? <==> diffMinutes <= 0
    ensures c.After? ==> c.hours * 60 + c.minutes == diffMinutes && c.minutes < 60
    ensures c.After? ==> c.hours > 0 || c.minutes > 0
  {
    if diffMinutes <= 0 then Now
    else After(diffMinutes / 60, diffMinutes % 60)
  }

  const Connector := 'و'

  function CountdownText(c: Countdown): string {
    match c
    case Now => "الآن"
    case After(h, m) =>
      "بعد "
      + (if h > 0 then ArabicNumber(h) + " " + (if h == 1 then "ساعة" else "ساعات") else "")
      + (if h > 0 && m > 0 then " " + [Connector] else "")
      + (if m > 0 then ArabicNumber(m) + " دقيقة" else "")
  }

  /** The text of the same-day branch of `getTimeLeft`, given the minute difference. */
  function TimeLeftToday(diffMinutes: int): string {
    CountdownText(SameDayCountdown(diffMinutes))
  }

  /** The "and" connector appears exactly when both hours and minutes are shown. */
  lemma ConnectorIffBoth(h: nat, m: nat)
    ensures Connector in CountdownText(After(h, m)) <==> h > 0 && m > 0
  {
    assert Connector !in "بعد ";
    assert Connector !in " " && Connector !in "ساعة" && Connector !in "ساعات";
    assert Connector !in " دقيقة";
    assert !IsArabicDigit(Connector);
    if h > 0 && m > 0 {
      var hs := ArabicNumber(h) + " " + (if h == 1 then "ساعة" else "ساعات");
      var text := "بعد " + hs + (" " + [Connector]) + (ArabicNumber(m) + " دقيقة");
      assert text[|"بعد " + hs| + 1] == Connector;
    }
  }

  /** A countdown to a later time always names at least one non-zero amount. */
  lemma CountdownNamesSomething(diffMinutes: int)
    requires diffMinutes > 0
    ensures TimeLeftToday(diffMinutes) != "بعد "
  {
    var c := SameDayCountdown(diffMinutes);
    if c.hours > 0 {
      assert |TimeLeftToday(diffMinutes)| > |"بعد "|;
    } else {
      assert |TimeLeftToday(diffMinutes)| > |"بعد "|;
    }
  }

  /** With whole hours, the text opens with the hour count and the right word for it. */
  lemma CountdownShowsHours(h: nat, m: nat)
    requires h > 0
    ensures StartsWith(CountdownText(After(h, m)),
      "بعد " + ArabicNumber(h) + " " + (if h == 1 then "ساعة" else "ساعات"))
  {
    var head := "بعد " + ArabicNumber(h) + " " + (if h == 1 then "ساعة" else "ساعات");
    var text := CountdownText(After(h, m));
    var tail := (if m > 0 then " " + [Connector] else "") + (if m > 0 then ArabicNumber(m) + " دقيقة" else "");
    assert text == head + tail;
    ConcatStartsWith(head, tail);
  }

  lemma ConcatStartsWith(head: string, tail: string)
    ensures StartsWith(head + tail, head)
  {
    assert (head + tail)[..|head|] == head;
  }

  /** With leftover minutes, the text closes with the minute count. */
  lemma CountdownShowsMinutes(h: nat, m: nat)
    requires m > 0
    ensures var text, last := CountdownText(After(h, m)), ArabicNumber(m) + " دقيقة";
      |last| <= |text| && text[|text| - |last|..] == last
  {
    var last := ArabicNumber(m) + " دقيقة";
    var text := CountdownText(After(h, m));
    var front := "بعد "
      + (if h > 0 then ArabicNumber(h) + " " + (if h == 1 then "ساعة" else "ساعات") else "")
      + (if h > 0 then " " + [Connector] else "");
    assert text == front + last;
    assert text[|front|..] == last;
  }
}
