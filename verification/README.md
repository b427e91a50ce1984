# Appointment availability and portal rules of the dialysis patient portal

This project models the decision logic of the patient portal's booking form and
of the small rules around it. The model is written in Dafny, and the properties
below are proved about it.

- **Time slots.** A center's weekly window (`day`, `start_time`, `end_time`,
  `is_active`) is turned into 30-minute "HH:MM" slots.
- **Date enumeration.** Upcoming dates are enumerated over a horizon. A date is
  kept when some schedule names its weekday.
- **Time picker.** For a chosen date, the picker takes the first schedule of
  that weekday and lists its slots. It highlights the slot that lies less than
  15 minutes from the stored time.
- **Helpers.** These cover the status and gender labels, status colours, the
  ":00" time normalisation, Arabic-Indic digits, the same-day countdown and the
  "day/month/year" shape gate.
- **Route guard.** Assets and the login/registration pages pass. Any other page
  needs the token cookie and otherwise redirects to `/auth/login`.
- **Navigation bar.** This covers link highlighting, the unread badge with its
  `99+` cap, and the mobile menu state.
- **Pager.** This covers when its buttons are enabled and which page each one
  requests.

Representation choices:

- Times of day are integer minutes.
- Selected times are seconds, so that `HH:MM:SS` legacy values keep their
  seconds.
- Dates are integer day ordinals. Day 0 is 1970-01-01, a Thursday, and
  `WeekdayIndex` numbers the weekdays Sunday first, as `getDay()` does.
- "Now", the cookie token, the pathname and the chosen date are parameters.

Modules, one per source concern:

| file | module | models |
|---|---|---|
| wrappers.dfy | `Wrappers` | `Option`, standing for `undefined`/`null` and failed parses |
| text.dfy | `Text` | ASCII lower-casing, prefix tests, `split`/`join` on one character, decimal digit strings |
| clock.dfy | `Clock` | the three readings of a time string (slot bounds, "HH:MM" formatting, `parseISO` to the second) and `differenceInMinutes` |
| slots.dfy | `Slots` | `generateTimeSlots` |
| schedules.dfy | `Schedules` | `Schedule`, weekday names, `getUpcomingScheduleDates` |
| time_selector.dfy | `TimeSelector` | `CenterTimeSelector` |
| labels.dfy | `Labels` | the display helpers of `lib/helpers.ts` |
| route_guard.dfy | `RouteGuard` | `middleware` |
| navbar.dfy | `Navbar` | `Navbar` |
| pagination.dfy | `Pagination` | `Pagination` |

Behaviour of the code worth noting:

- **Slot count.** `generateTimeSlots` loops while the current time is strictly
  before the end. It therefore yields ceil((end − start)/30) slots: 09:00–10:15
  gives 09:00, 09:30 and 10:00.
- **Fortnight count.** In a 14-day horizon, a center open on one weekday is
  offered on exactly two dates.
- **Letter case of schedule days.** `getUpcomingScheduleDates` compares schedule
  days case-sensitively. The time picker lower-cases them first. A day stored
  as "Monday" therefore gets slots in the picker but is never offered as a
  date.
- **Gender label.** `getGenderLabel` is case-sensitive ("Male" is unspecified).
  The status lookups are case-insensitive.
- **Logo pattern.** The logo pattern's `i` flag applies to the whole path:
  "/LOGO.PNG" passes.

## Model

| member | source | states |
|---|---|---|
| Text.Split | lib/helpers.ts:113 | a string splits into one part more than it has separators, and no part contains the separator |
| Text.JoinSplit | lib/helpers.ts:168 | joining the parts of a split with the separator restores the input |
| Text.SplitJoin | lib/helpers.ts:120 | splitting a join of separator-free parts gives the parts back |
| Text.DecimalRoundTrip | lib/helpers.ts:116 | reading back the decimal rendering of a number gives the number |
| Clock.ClockMinutes | lib/helpers.ts:120-124 | a slot bound has a value exactly when its first two colon-separated fields are numeric, and the value is then 60 × the first field + the second (so overflowing minutes roll over); anything else is an invalid Date |
| Clock.Format | lib/helpers.ts:129 | `toTimeString().slice(0, 5)`: five characters with a colon in the middle; `Clock.FormatIsHourMinute` and `Clock.FormatThenClockMinutes` show it is a well-formed "HH:MM" of the time of day |
| Clock.FormatThenClockMinutes | lib/helpers.ts:129 | an emitted "HH:MM" slot reads back as its time of day (minutes modulo a day) |
| Clock.HourMinuteRoundTrip | lib/helpers.ts:120-129 | a well-formed "HH:MM" bound is formatted back to the same string |
| Clock.IsoSeconds | components/center-time-selector.tsx:50-56 | `parseISO` of a "HH:MM" or "HH:MM:SS" time: at most 24 h of seconds, and only strings of length 5 or 8 read |
| Clock.IsoSecondsOfHourMinute | components/center-time-selector.tsx:50-56 | "HH:MM" of any in-range hour and minute, 24:00 included, reads as 3600·h + 60·m seconds |
| Clock.IsoSecondsOfHourMinuteSecond | components/center-time-selector.tsx:50-56 | "HH:MM:SS" of any in-range hour, minute and second, 24:00:00 included, reads as 3600·h + 60·m + s seconds: the seconds are kept |
| Clock.IsoSecondsReadsOnly | components/center-time-selector.tsx:50-56 | every time that reads is the two-digit "HH:MM" or "HH:MM:SS" rendering of an in-range hour, minute (and second), so with the two lemmas above its value is fixed |
| Clock.FormatThenIsoSeconds | components/center-time-selector.tsx:56 | `parseISO` reads an emitted slot as the start of its minute |
| Clock.MinutesBetween | components/center-time-selector.tsx:57 | `differenceInMinutes` truncates toward zero: 60·r ≤ a − b < 60·r + 60 when a ≥ b, and 60·r − 60 < a − b ≤ 60·r otherwise |
| Clock.MinutesBetweenBound | components/center-time-selector.tsx:57-58 | the truncated whole-minute difference is below k exactly when the times are less than 60·k seconds apart |
| Slots.SlotMinutes | lib/helpers.ts:126-131 | the slots are start + 30·i, each in [start, end); there are ceil((end − start)/30) of them; none when start ≥ end; the last is within one step of the end |
| Slots.SlotMinutesIncreasing | lib/helpers.ts:128-131 | slots strictly increase, and slots i < j are exactly 30·(j − i) minutes apart |
| Slots.TimeSlots | lib/helpers.ts:119-134 | the slot strings of a window given as two strings; `Slots.TimeSlotsShape` and `Slots.TimeSlotsUnreadable` characterise them |
| Slots.TimeSlotsShape | lib/helpers.ts:119-134 | the slot strings are the formatted slot instants: ceil-many, well-formed "HH:MM", empty when start ≥ end, each reading back as its time of day |
| Slots.TimeSlotsWithinDay | lib/helpers.ts:128-131 | for a window ending by midnight each slot string reads back as exactly start + 30·i |
| Slots.TimeSlotsUnreadable | lib/helpers.ts:120-128 | a bound that is not a time yields no slots (so a window with any slot has both bounds readable) |
| Slots.GenerateTimeSlots | lib/helpers.ts:119-134 | the source's while loop computes the slot list: empty on an unreadable bound, otherwise ceil((end − start)/30) slots |
| Slots.PartialStepStillOffered | lib/helpers.ts:128-131 | 09:00–10:15 yields 09:00, 09:30 and 10:00 |
| Schedules.SameDayNameIffWeeksApart | lib/helpers.ts:146-149 | two days share a weekday name exactly when they are a whole number of weeks apart |
| Schedules.WeekdayNamesDistinct | lib/helpers.ts:147-149 | the seven weekday names are pairwise different |
| Schedules.UpcomingDates | lib/helpers.ts:136-160 | the upcoming dates of a horizon, at most `daysAhead` of them; `Schedules.UpcomingDatesSpec` characterises them |
| Schedules.UpcomingDatesSpec | lib/helpers.ts:136-160 | at most `daysAhead` dates, strictly ascending, within [today, today + daysAhead − 1]; a day is included iff its weekday name is some schedule's `day`; empty for a horizon ≤ 0 or no schedules |
| Schedules.OfferedIgnoresActivity | lib/helpers.ts:140-151 | changing `is_active` flags never changes which days are offered |
| Schedules.UpcomingScheduleDates | lib/helpers.ts:145-158 | the source's loop over the horizon computes exactly the upcoming dates |
| Schedules.DistinctElements | lib/helpers.ts:145-157 | a strictly ascending date list has as many distinct dates as entries |
| Schedules.FortnightHasTwoOfEachWeekday | lib/helpers.ts:136-158 | a center open on a single weekday is offered on exactly two dates of the default 14-day horizon, whatever today is |
| TimeSelector.SelectorDayName | components/center-time-selector.tsx:8-32 | lower-casing the component's Sunday-first table gives the same weekday name as the date enumeration |
| TimeSelector.FirstMatch | components/center-time-selector.tsx:33 | finds the first schedule whose lower-cased day equals the name, and reports none iff no schedule matches |
| TimeSelector.IsSelected | components/center-time-selector.tsx:54-59 | `getIsSelected`; `TimeSelector.SelectedIffWithinTolerance` characterises it |
| TimeSelector.SelectedIffWithinTolerance | components/center-time-selector.tsx:49-59 | a slot is highlighted iff the stored time is non-empty, both times parse, and they are less than 15 minutes (900 s) apart |
| TimeSelector.Render | components/center-time-selector.tsx:29-46 | nothing without a date; "no appointments" iff no schedule matches the weekday; otherwise the first matching schedule with one button per generated slot, in order |
| TimeSelector.AtMostOneSelected | components/center-time-selector.tsx:53-59 | for a window of at most one day, with 30-minute steps and a strict 15-minute tolerance, at most one slot is highlighted |
| TimeSelector.SlotTimesApart | lib/helpers.ts:128-131 | times of day of two different slots of a day-long window are at least 30 minutes apart |
| TimeSelector.EmptyTimeSelectsNothing | components/center-time-selector.tsx:49-55 | an empty stored time highlights no slot |
| TimeSelector.OnClick | components/center-time-selector.tsx:67-77 | clicking the i-th button reports the i-th generated slot unchanged, a well-formed "HH:MM" |
| TimeSelector.ClickSelectsExactlyThatSlot | components/center-time-selector.tsx:54-77 | for a window of at most one day, re-rendering with the clicked time highlights that slot and no other |
| TimeSelector.OffGridTimeFindsItsSlot | components/center-time-selector.tsx:53-59 | a stored 10:05 highlights 10:00 and neither 09:30 nor 10:30 |
| TimeSelector.SecondsAreTruncated | components/center-time-selector.tsx:56-58 | a stored 09:45:30 highlights 10:00 (14.5 min) but not 09:30 (15.5 min) |
| TimeSelector.OfferedDatesHaveWindow | components/center-time-selector.tsx:31-41 | every date the enumeration offers opens the picker on a window, never on "no appointments" |
| TimeSelector.CapitalisedDayOnlyInTimePicker | components/center-time-selector.tsx:33 | a window stored as "Monday" gives Monday slots in the picker but the enumeration never offers the day |
| Labels.GenderLabel | lib/helpers.ts:13-22 | "male" and "female" map to their labels, each exactly for that exact string; everything else is unspecified |
| Labels.StatusLabel | lib/helpers.ts:24-45 | the corrected lookup (the code as written also returns inherited members, see "## Findings"): absent or empty gives the default; otherwise the lower-cased status's table label if it has one, else the default; the result is always the default or a table label |
| Labels.StatusLabelIgnoresCase | lib/helpers.ts:26-27 | statuses differing only in case get the same label |
| Labels.StatusLabelAsWritten | lib/helpers.ts:27 | the plain-object lookup yields an inherited prototype member, named by the lower-cased status, exactly when that status is not a key of the label table but names an `Object.prototype` member |
| Labels.ConstructorStatusIsNotALabel | lib/helpers.ts:24-28 | the status "Constructor" yields the inherited `constructor` member, where the corrected lookup gives the default label |
| Labels.StatusLabelAgreesOffPrototype | lib/helpers.ts:24-28 | for a blank status, a table key, or any name that is not an `Object.prototype` member, the lookup as written and the corrected one agree |
| Labels.StatusColor | lib/helpers.ts:47-66 | in any letter case: the bare grey exactly for an absent or empty status; green exactly for active and confirmed; amber exactly for pending, red for cancelled, grey-300 for completed, orange for failed; the default colour exactly for every other non-blank status |
| Labels.StatusColorIgnoresCase | lib/helpers.ts:48-50 | statuses differing only in case get the same colour |
| Labels.ColouredStatusesAreLabelled | lib/helpers.ts:30-66 | every status with its own colour also has its own label |
| Labels.NormalizeTime | lib/helpers.ts:112-114 | appends ":00" exactly when the time has one colon (two parts), and is the identity otherwise |
| Labels.NormalizeTimeIdempotent | lib/helpers.ts:112-114 | normalising twice equals normalising once |
| Labels.NormalizeTimeKeepsInstant | lib/helpers.ts:82-85 | normalising a well-formed "HH:MM" keeps the instant read from the date-time string; `Clock.IsoSeconds` stands in for how `new Date` reads the local "THH:MM" and "THH:MM:SS" forms |
| Labels.LibyanDateFields | lib/helpers.ts:167-169 | an input passes the gate iff it has exactly two "/", and the three fields rejoin to the input |
| Labels.ToArabicDigits | lib/helpers.ts:115-117 | keeps the length, maps each ASCII digit at its position to the Arabic-Indic digit of the same value, and keeps other characters |
| Labels.ArabicDigitsRoundTrip | lib/helpers.ts:115-117 | reading Arabic-Indic digits back undoes the transliteration |
| Labels.ArabicNumber | lib/helpers.ts:115-117 | a number is rendered as a non-empty string of Arabic-Indic digits |
| Labels.ArabicNumberRoundTrip | lib/helpers.ts:115-117 | the digits shown read back as the number |
| Labels.SameDayCountdown | lib/helpers.ts:90-95 | a difference ≤ 0 is "now"; otherwise hours·60 + minutes = difference, with minutes < 60 and not both zero |
| Labels.CountdownText | lib/helpers.ts:97-105 | the Arabic text of a countdown; `Labels.CountdownShowsHours`, `Labels.CountdownShowsMinutes`, `Labels.ConnectorIffBoth` and `Labels.CountdownNamesSomething` state properties of it |
| Labels.CountdownShowsHours | lib/helpers.ts:97-101 | with whole hours, the text opens with "بعد ", the hour count in Arabic-Indic digits and "ساعة" for one hour or "ساعات" otherwise |
| Labels.CountdownShowsMinutes | lib/helpers.ts:103 | with leftover minutes, the text ends with the minute count in Arabic-Indic digits and "دقيقة" |
| Labels.TimeLeftToday | lib/helpers.ts:89-105 | the same-day text of `getTimeLeft` for a minute difference; `Labels.SameDayCountdown` and `Labels.CountdownNamesSomething` state properties of it |
| Labels.ConnectorIffBoth | lib/helpers.ts:97-103 | the "and" connector appears in the text exactly when both hours and minutes are positive |
| Labels.CountdownNamesSomething | lib/helpers.ts:92-105 | a positive difference never renders as the bare "in" prefix |
| RouteGuard.Middleware | middleware.ts:19-41 | assets and public paths pass regardless of token; a token always passes; a redirect happens iff neither asset nor public and no token, and targets `/auth/login` |
| RouteGuard.RedirectTargetPasses | middleware.ts:5-38 | following a redirect never redirects again |
| RouteGuard.PublicIsPrefix | middleware.ts:28-31 | anything starting with `/auth/login` or `/auth/register` passes without a token |
| RouteGuard.LogoIgnoresCase | middleware.ts:13 | "/LOGO.PNG" and "/Logo.webp" pass; "/logo.gif" without a token is redirected |
| Navbar.IsActive | components/navbar.tsx:30-35 | `isActive`; `Navbar.HomeExcludesOthers` and `Navbar.SubpageHighlightsItsSection` state properties of it |
| Navbar.HomeExcludesOthers | components/navbar.tsx:14-35 | the home link is never active together with another link |
| Navbar.SubpageHighlightsItsSection | components/navbar.tsx:30-35 | any path under "/orders" activates exactly the orders link |
| Navbar.UnreadCount | components/navbar.tsx:80 | at most the number of alerts; zero iff all are read; all iff none are read |
| Navbar.ReadAlertsDoNotCount | components/navbar.tsx:80-81 | inserting a read alert anywhere leaves the unread count unchanged |
| Navbar.UnreadAlertCounts | components/navbar.tsx:80 | inserting an unread alert anywhere raises the unread count by exactly one |
| Navbar.BadgeFor | components/navbar.tsx:77-86 | no badge iff a list is missing or the total is 0; "99+" iff the total exceeds 99; otherwise exactly the total, 1 to 99 |
| Navbar.BadgeTextFits | components/navbar.tsx:86 | the badge text has at most three characters and an exact badge reads back as the total |
| Navbar.MenuParity | components/navbar.tsx:28 | after only toggles the menu is open iff it started open xor the toggle count is odd |
| Navbar.ChoosingClosesMenu | components/navbar.tsx:124 | choosing a mobile link closes the menu whatever came before |
| Pagination.Request | components/pagination.tsx:18-33 | previous is enabled iff page > 1, next iff page < total; an enabled button asks for page − 1 or page + 1 respectively |
| Pagination.RequestStaysInRange | components/pagination.tsx:18-33 | from a page in [1, total] every enabled button asks for a page in [1, total] |
| Pagination.NextThenPreviousReturns | components/pagination.tsx:20-30 | "next" then "previous" returns to the starting page |
| Pagination.PreviousThenNextReturns | components/pagination.tsx:20-30 | "previous" then "next" returns to the starting page |
| Pagination.SinglePageDisablesBoth | components/pagination.tsx:21-31 | on page 1 of at most one page both buttons are disabled |

## Left out

- Date keys and labels are not modelled. This covers `format(date, "yyyy-MM-dd")`, the Arabic weekday/date labels, the 12-hour button labels and `formatTimeToArabic`. The chosen date is a day ordinal, or none for the empty string, rather than a parsed "YYYY-MM-DD" key.
- Slot bounds accept only digit strings (and "") as `Number` would read them. Whitespace, signs, exponents, hexadecimal, binary ("0b101"), octal ("0o7") and fractions are treated as not-a-number, so they yield no slots.
- Out-of-range hours or minutes in a bound roll over as `new Date(0, 0, 0, h, m)` does while the instant stays within the ±8.64e15 ms Date range. Beyond it (an end such as "3000000000:00") the source gets an invalid Date and no slots; the model is unbounded and yields slots up to the end. Time zones and DST around the 1899 reference date are not modelled.
- DST on the selected date is not modelled. The selector reads both times onto the selected local date with `parseISO` and measures elapsed time with `differenceInMinutes` (components/center-time-selector.tsx:49-57); `TimeSelector.IsSelected` compares wall-clock seconds. On a spring-forward day the source reads slot "02:30" as 03:30 and highlights it for a stored "03:20"; the model does not.
- Stored times are read only in the "HH:MM" and "HH:MM:SS" forms of `parseISO`. Its other forms ("HH", "HHMM", fractions, offsets) count as unparsable and highlight nothing.
- An unreadable non-empty date key is not modelled. If `parseISO` cannot read it, `getDay()` is NaN and `weekdays[NaN]` is undefined, so `.toLowerCase()` throws a TypeError and the component fails (components/center-time-selector.tsx:31-32). The chosen date is a day ordinal or none, so this path cannot arise in the model.
- Lower-casing covers ASCII letters only. JavaScript's full Unicode `toLowerCase` is not modelled.
- TimeSelector.AtMostOneSelected: proved only for windows spanning at most one day. A window longer than 24 hours repeats times of day, so one stored time could highlight two buttons with the same text.
- TimeSelector.ClickSelectsExactlyThatSlot: proved only for windows spanning at most one day, for the same reason. In a window such as 00:00–24:30 the first and last slots are both "00:00", so clicking one highlights both.
- `getTimeLeft` is modelled only in its same-day minute arithmetic. The difference in minutes is a parameter. The invalid-date branch and the wall-clock and locale branches (tomorrow, this week, this month, a formatted date) are left out.
- `parseLibyanDate` is modelled only in its three-field gate. Building a `Date` from the fields rolls over out-of-range values and is not modelled.
- `getUserImage` is left out: it is a URL concatenation with no decision beyond an empty check.
- The Next.js `config.matcher` is left out: it is routing configuration, not logic.
- Cookie reading and redirect URL cloning are left out. The query string that `clone()` keeps is not modelled; only the target pathname is.
- The navigation bar's alert drawer, logout button and theme toggle are left out: they are state or I/O with no rule.
- Authentication context, REST client, React Query, forms and validation are left out. These are the pages and the rendering components (tables, widgets, map, date-picker wrapper, layout, SEO, sitemap): asynchronous I/O and display without decision logic.

## Findings

| source | as written | input that shows it | evidently intended | confidence | as-written member | corrected member |
|---|---|---|---|---|---|---|
| lib/helpers.ts:27 | `STATUS_LABELS[normalized] ?? "غير محدد"` looks the lower-cased status up on a plain object, so the lookup also finds members inherited from `Object.prototype`, and `??` keeps them | status "Constructor" (lower-cased "constructor") returns the `Object` function; "__proto__" returns `Object.prototype` | unknown statuses, including these names, get the default label | high, not executed | Labels.StatusLabelAsWritten | Labels.StatusLabel |
