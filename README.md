# Doctor availability and the doctor form, in Dafny

This project models two pieces of a clinic scheduling application.

- **The availability calculator** (`getAvailableTimes`). Given a doctor and a
  date, it lists the doctor's appointment slots for that day. Each slot is
  marked available unless an existing appointment on that day is formatted
  to exactly the same "HH:mm:ss" time. The calculator works in four steps:
  - it fails when there is no session, the user has no clinic, or the doctor
    does not exist;
  - a weekday gate returns nothing on days outside the doctor's weekday range;
  - a window filter keeps the canonical slots that fall between the doctor's
    start and end times;
  - a collision marker sets each slot's `available` flag and its "HH:MM" label.
- **The doctor form validator** (`upsertDoctorSchema`). Each field check that
  fails reports one issue on its own path. A final refinement asks that the
  start time come before the end time in string order, and reports its issue
  on the end time.

Everything is modelled as pure functions over sequences, as the source is
written. Because every member is a function, the same inputs always give the
same result.

Modules:

- `Outcome`: the Option and Result types.
- `Clock`: the time-string steps the calculator relies on. These are
  splitting at ':', JavaScript's `Number`, dayjs's hour and minute rollover,
  `.local()`, formatting as "HH:mm:ss", and JavaScript's string order. The
  main lemma, `RenderOrder`, proves that the string order of formatted times
  is the order of the clock.
- `Availability`: the calculator.
- `DoctorSchema`: the validator.
- `ConfiguredAvailability`: what the validator does and does not guarantee to
  the calculator, plus worked scenarios for a doctor working Monday to Friday
  from 09:00 to 10:00.

How the calculator's inputs are modelled:

- **Outside services become parameters.** The session lookup becomes
  `session`. The two database reads become `doctor` (None when not found) and
  `appointments`. The slot generator becomes `slots`.
- **Dates.** The requested date is a local day index counted from 1970-01-01.
  An appointment carries its local day and its local second of the day.
- **Time zone.** The server's time zone becomes `offsetMinutes`, the local
  offset from UTC. `.local()` applies it to the two bounds only, as the code
  does. Slots are compared as UTC times.

Three behaviours of the code are worth knowing, and the model keeps them:

- **Only the bounds are shifted.** The doctor's start and end times are
  shifted to local time; the slots are not. `WindowExact` states the effect.
- **Start before end is a string comparison.** The form compares the two
  times as strings, so "9:00:00" is not before "10:00:00"
  (`UnpaddedHourComparesAsText`).
- **The weekdays are not compared.** The form never checks the two weekdays
  against each other. A range such as Friday to Monday is accepted, and such a
  doctor never has a slot (`InvertedWeekdaysAcceptedButNeverAvailable`).

## Model

| member | source | states |
|---|---|---|
| Availability.GetAvailableTimes | src/actions/get-available-times/index.ts:24-92 | fails exactly when there is no session, the user has no clinic, or the doctor is not found; otherwise succeeds with at most one entry per canonical slot |
| Availability.NoSessionFails | src/actions/get-available-times/index.ts:28-30 | without a session the result is the "Unauthorized" error, whatever the other inputs |
| Availability.DoctorNotFoundFails | src/actions/get-available-times/index.ts:34-39 | with a session and a clinic, a doctor lookup that finds nothing gives the "Médico não encontrado" error |
| Availability.DayOfWeek | src/actions/get-available-times/index.ts:42 | the weekday of a date is in 0..6 |
| Availability.WeekdayNumbering | src/actions/get-available-times/index.ts:42 | as dayjs's `.day()` numbers them: 1970-01-04, a Sunday, is 0; each next day has the next number modulo 7; the numbering repeats every seven days |
| Availability.WorksOn | src/actions/get-available-times/index.ts:43-45 | a day passes the gate only when the doctor's weekday range is not inverted and meets 0..6 |
| Availability.OutsideWeekdaysYieldsNothing | src/actions/get-available-times/index.ts:42-48 | a date whose weekday is outside the doctor's inclusive range yields an empty list, not an error |
| Availability.InvertedWeekdaysYieldNothing | src/actions/get-available-times/index.ts:43-47 | when the first weekday is after the last, every date yields an empty list: the range does not wrap around |
| Availability.TakenTimes | src/actions/get-available-times/index.ts:52-56 | a time string is taken exactly when some appointment on the requested day is formatted to it |
| Availability.OtherDaysIrrelevant | src/actions/get-available-times/index.ts:52-55 | adding an appointment on another day never changes the result |
| Availability.SlotKey | src/actions/get-available-times/index.ts:75-79 | the key of a slot: its hour and minute read as UTC, seconds set to 0, formatted "HH:mm:ss"; its meaning is stated by `SlotKeyDropsSeconds` |
| Availability.SlotKeyDropsSeconds | src/actions/get-available-times/index.ts:75-79 | a well-formed slot's key is well-formed, denotes the slot's hour and minute with 0 seconds, and keeps the slot's "HH:MM" characters |
| Availability.BoundKey | src/actions/get-available-times/index.ts:60-72 | an unreadable bound is "Invalid Date"; a well-formed bound's key is well-formed and denotes its hour and minute shifted by the offset modulo a day, with 0 seconds |
| Availability.InWindow | src/actions/get-available-times/index.ts:81-84 | JavaScript's `key >= from && key <= to` on strings; `WindowExact` states it as clock order for well-formed slots |
| Availability.WindowSlots | src/actions/get-available-times/index.ts:74-85 | a slot is kept exactly when it is a canonical slot whose key lies between the two bounds' keys in string order |
| Availability.WindowIsSubsequence | src/actions/get-available-times/index.ts:74-85 | the window keeps slots in their original order and invents none |
| Availability.WindowExact | src/actions/get-available-times/index.ts:60-85 | for well-formed slots and readable bounds, a slot is kept exactly when its UTC hour and minute lie between the bounds shifted to local time, ends included |
| Availability.WindowExactWithoutOffset | src/actions/get-available-times/index.ts:60-85 | at zero offset, a slot is kept exactly when its hour and minute lie between the bounds' hours and minutes; seconds play no part |
| Availability.UnreadableStartYieldsNoSlots | src/actions/get-available-times/index.ts:60-84 | a start time whose fields are not numbers formats as "Invalid Date", and no well-formed slot is then kept |
| Availability.Label | src/actions/get-available-times/index.ts:90 | the label is a prefix of the value, five characters long or the whole value when shorter |
| Availability.MarkSlots | src/actions/get-available-times/index.ts:86-92 | one entry per window slot in order: the value is the slot, `available` is true iff the slot is not taken, and the label is the slot's prefix |
| Availability.ResultFollowsWindow | src/actions/get-available-times/index.ts:74-92 | on a working day the result succeeds, its values are the window's slots in order, and they form a subsequence of the canonical slots |
| Availability.EntriesMarkCollisions | src/actions/get-available-times/index.ts:52-90 | each entry's value is a canonical slot; it is unavailable iff an appointment that day is formatted to that value; its label is the value's prefix |
| Availability.WellFormedCollisions | src/actions/get-available-times/index.ts:52-90 | for an "HH:MM:SS" value, an entry is unavailable iff an appointment that day starts at that very second, and its label is "HH:MM" |
| Clock.LexLess | src/actions/get-available-times/index.ts:82-83 | JavaScript's string `<`; `LexLessTrichotomy`, `RenderOrder` and `WellFormedOrder` state what it means |
| Clock.LexLessTrichotomy | src/actions/upsert-doctor/schema.ts:25 | JavaScript's string `<` is a strict total order: of two strings exactly one is before the other, or they are equal |
| Clock.LexLessIrreflexive | src/actions/upsert-doctor/schema.ts:25 | no string is before itself in JavaScript's string order |
| Clock.LexLessAppend | src/actions/get-available-times/index.ts:82-83 | for equal-length leading parts, string order compares the leading parts first and the remainders only on a tie |
| Clock.Render | src/actions/get-available-times/index.ts:56 | `format("HH:mm:ss")` of a time of day; `RenderWellFormed`, `RenderSecondsOf` and `RenderOrder` state what it means |
| Clock.FormatMinute | src/actions/get-available-times/index.ts:82-83 | `format("HH:mm:ss")` of a bound or slot whose seconds were set to 0, "Invalid Date" for NaN; `FormatMinuteReadsBack` states what it means |
| Clock.FormatMinuteReadsBack | src/actions/get-available-times/index.ts:82-83 | a bound or slot formats as "Invalid Date" exactly when it was built from NaN; otherwise it is well-formed and denotes that minute with 0 seconds |
| Clock.HourMinuteKept | src/actions/get-available-times/index.ts:75-79 | setting a well-formed time's seconds to 0 and formatting it keeps its "HH:MM" characters |
| Clock.RenderWellFormed | src/actions/get-available-times/index.ts:56 | formatting a second of the day gives an "HH:MM:SS" string that reads back as the same second |
| Clock.RenderSecondsOf | src/actions/get-available-times/index.ts:56 | reading an "HH:MM:SS" string and formatting it again gives the same string |
| Clock.RenderMatches | src/actions/get-available-times/index.ts:89 | an appointment's formatted time equals an "HH:MM:SS" slot iff its second of the day is the slot's |
| Clock.RenderOrder | src/actions/get-available-times/index.ts:82-83 | formatted times compare in string order exactly as the seconds compare |
| Clock.WellFormedOrder | src/actions/upsert-doctor/schema.ts:25 | two "HH:MM:SS" strings compare in string order exactly as their clock times compare |
| Clock.RenderBeforeInvalidDate | src/actions/get-available-times/index.ts:82-83 | every formatted time is before "Invalid Date" in string order |
| Clock.BeforeColon | src/actions/get-available-times/index.ts:62 | the first field is a prefix of the string and contains no ':' |
| Clock.AfterColon | src/actions/get-available-times/index.ts:63 | the rest after the first ':' exists iff the string contains a ':' |
| Clock.SecondField | src/actions/get-available-times/index.ts:63 | `split(":")[1]`, None for JavaScript's `undefined`; `SecondFieldShape` states what it means |
| Clock.SecondFieldShape | src/actions/get-available-times/index.ts:63 | the second field exists exactly when the string contains ':', and it holds no ':' of its own |
| Clock.SplitRejoins | src/actions/get-available-times/index.ts:62-63 | the first field, the ':' and the rest make up the original string; without ':' the first field is the whole string |
| Clock.JsNumber | src/actions/get-available-times/index.ts:62-63 | `Number("")` is 0 and `Number(undefined)` is NaN |
| Clock.HourRollsOver | src/actions/get-available-times/index.ts:60-64 | an hour of 24 rolls over into the next day ("24:30" is minute 30); a missing minute field is NaN |
| Clock.UtcMinuteOf | src/actions/get-available-times/index.ts:60-64 | the minute of the day set by the `set("hour")`, `set("minute")`, `set("second", 0)` chain, None for NaN; `UtcMinuteOfWellFormed` and `HourRollsOver` state what it means |
| Clock.UtcMinuteOfWellFormed | src/actions/get-available-times/index.ts:75-79 | an "HH:MM:SS" string reads back as its hour and minute, with the seconds dropped |
| Clock.ToLocal | src/actions/get-available-times/index.ts:65 | the local minute equals the UTC minute plus the offset, modulo a day; a zero offset changes nothing |
| DoctorSchema.Validate | src/actions/upsert-doctor/schema.ts:3-31 | no issues exactly when every field check and the ordering refinement pass; when the start is not before the end, the last issue is the refinement's, on the end time |
| DoctorSchema.IssueOnFieldIff | src/actions/upsert-doctor/schema.ts:6-30 | an issue is reported on a field exactly when that field breaks its constraint; the end time's constraint includes the ordering refinement |
| DoctorSchema.AcceptsIff | src/actions/upsert-doctor/schema.ts:3-31 | a form is accepted exactly when no field breaks its constraint |
| DoctorSchema.OrderingIssueOnEndTime | src/actions/upsert-doctor/schema.ts:23-30 | the ordering issue appears iff the start is not before the end in string order, and only on the end time's path |
| DoctorSchema.EqualTimesRejected | src/actions/upsert-doctor/schema.ts:25 | equal start and end times are rejected with the ordering issue |
| DoctorSchema.AcceptedTimesOrdered | src/actions/upsert-doctor/schema.ts:23-26 | in an accepted form with "HH:MM:SS" times, the start is strictly earlier on the clock than the end |
| DoctorSchema.UnpaddedHourComparesAsText | src/actions/upsert-doctor/schema.ts:25 | "9:00:00" to "10:00:00" is rejected, because the strings are compared by character |
| ConfiguredAvailability.InvertedWeekdaysAcceptedButNeverAvailable | src/actions/upsert-doctor/schema.ts:14-15 | a form with weekdays 5 to 1 is accepted, and the stored doctor then has no slots on any date |
| ConfiguredAvailability.AcceptedFormWindow | src/actions/get-available-times/index.ts:60-92 | for an accepted form with "HH:MM:SS" times on a working day at zero offset, the result lists exactly the slots from the start's hour and minute to the end's, and that range is never inverted |
| ConfiguredAvailability.SaturdayHasNoSlots | src/actions/get-available-times/index.ts:42-48 | a Monday-to-Friday doctor has no slots on a Saturday |
| ConfiguredAvailability.NineToTenWindow | src/actions/get-available-times/index.ts:74-85 | a 09:00 to 10:00 window over the half-hour slots 08:30 to 10:30 keeps 09:00, 09:30 and 10:00 |
| ConfiguredAvailability.MondayWithoutBookings | src/actions/get-available-times/index.ts:86-92 | with no appointments a Monday lists those three slots, all available, labelled "HH:MM" |
| ConfiguredAvailability.BookingAtNineThirty | src/actions/get-available-times/index.ts:52-56 | one appointment at 09:30 takes the 09:30 slot and neither neighbour |
| ConfiguredAvailability.MondayWithOneBooking | src/actions/get-available-times/index.ts:86-92 | with that appointment, the Monday result lists 09:00, 09:30 and 10:00, and only 09:30 is unavailable |
| ConfiguredAvailability.UnknownDoctorScenario | src/actions/get-available-times/index.ts:37-39 | an unknown doctor gives the "Médico não encontrado" error |

## Left out

- Session lookup and authentication: only "no session" and "session without a clinic" are modelled (`Session`).
- Database queries: the doctor lookup and the appointment query become the parameters `doctor` and `appointments`. Filtering appointments by doctor id is the query's job and is not modelled.
- Input schema of the action (`doctorId` as a string, `date` as a calendar date): the date is already a local day index, so parsing "YYYY-MM-DD" is not modelled.
- `generateTimeSlots`: its source is not part of this model. The canonical slots are the parameter `slots`, and the properties that need it assume "HH:MM:SS" slots.
- Time zones: one fixed offset, `offsetMinutes`, stands for the server's zone. Daylight-saving changes are not modelled, and neither is the fact that the bounds use the offset in force at the current instant rather than on the requested date.
- The current instant `dayjs()`: only its time of day matters to the filter, and it is overwritten. Its date, and a shift of the bounds across midnight into another day, are not modelled beyond the minute modulo a day.
- Clock.JsNumber: handles the empty string, runs of ASCII digits and everything else as NaN. It does not model `Number`'s acceptance of surrounding whitespace, signs, decimals, exponents or hexadecimal forms.
- Huge hour or minute values that overflow the JavaScript date range: `UtcMinuteOf` always wraps modulo a day. dayjs would give "Invalid Date" past the date range.
- Milliseconds of appointment times: the "HH:mm:ss" format drops them, so an appointment carries whole seconds.
- JavaScript compares strings by UTF-16 code units and Dafny `char`s are compared by code point. The two orders differ only for characters outside the Basic Multilingual Plane.
- DoctorSchema: the optional `id` with its UUID check is not modelled.
- DoctorSchema: only integer numbers are modelled for the price and weekdays. Fractions, NaN and non-number inputs are not.
- DoctorSchema: where the schema leaves zod's default message (the weekday bounds), an issue's message is None. Issue codes and the other fields of a zod issue are not modelled.
- Other actions and schemas of the application (appointments, patients, clinics) and the user interface are outside this model.
- WindowExact: requires that both bounds read as times. An unreadable end bound is not characterised, beyond the general membership statement of `WindowSlots`. An unreadable start bound is covered by `UnreadableStartYieldsNoSlots`.
