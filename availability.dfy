/**
  The doctor availability calculator (getAvailableTimes).

  Given the caller's session, the doctor record (None when the lookup found
  nothing), the requested date, the doctor's appointments and the canonical
  day of slots, it returns the slots of the doctor's daily window, each
  marked available unless an appointment on the requested day already
  starts at exactly that time.

  Dates are local calendar days counted from 1970-01-01; appointments carry
  their local calendar day and local time of day. The database reads and the
  session lookup become the parameters `doctor`, `appointments` and
  `session`; the slot generator becomes the parameter `slots`; the local
  time zone becomes `offsetMinutes`, the offset of local time from UTC.
*/
module Availability {
  import opened Outcome
  import opened Clock

  /** The availability settings of a stored doctor record. */
  datatype Doctor = Doctor(
    availableFromWeekday: int,
    availableToWeekday: int,
    availableFromTime: string,
    availableToTime: string)

  /** An existing appointment: its local calendar day and local time of day. */
  datatype Appointment = Appointment(day: int, time: SecondOfDay)

  /** One entry of the result; `labelText` is the source's `label` field (a reserved word here). */
  datatype TimeSlot = TimeSlot(value: string, available: bool, labelText: string)

  /** The signed-in user's session; `hasClinic` is whether the user belongs to a clinic. */
  datatype Session = Session(hasClinic: bool)

  const UnauthorizedMessage: string := "Unauthorized"
  const ClinicNotFoundMessage: string := "Clínica não encontrada"
  const DoctorNotFoundMessage: string := "Médico não encontrado"

  /** Day of the week of a local calendar day, 0 = Sunday; 1970-01-01 was a Thursday. */
  function DayOfWeek(day: int): (w: int)
    ensures 0 <= w < 7
  {
    (day + 4) % 7
  }

  /**
    dayjs's numbering of the week: 1970-01-04 (day 3) was a Sunday, numbered
    0, and each next day has the next number, Saturday's 6 followed by 0.
  */
  lemma WeekdayNumbering(day: int)
    ensures DayOfWeek(3) == 0
    ensures DayOfWeek(day + 1) == (DayOfWeek(day) + 1) % 7
    ensures DayOfWeek(day + 7) == DayOfWeek(day)
  {
  }

  /**
    The weekday gate: the day of the week lies in the doctor's inclusive
    range. A day can pass only when the range is not inverted and meets 0..6.
  */
  predicate WorksOn(d: Doctor, day: int)
    ensures WorksOn(d, day) ==> d.availableFromWeekday <= d.availableToWeekday
    ensures WorksOn(d, day) ==> d.availableFromWeekday <= 6 && 0 <= d.availableToWeekday
  {
    DayOfWeek(day) >= d.availableFromWeekday && DayOfWeek(day) <= d.availableToWeekday
  }

  // ---------------------------------------------------------------------------
  // Booking collision marker: times already taken on the requested day

  /** The "HH:mm:ss" times of the appointments that fall on the given day, in order. */
  function TakenTimes(appointments: seq<Appointment>, day: int): (taken: seq<string>)
    ensures |taken| <= |appointments|
    ensures forall s :: s in taken <==> exists a :: a in appointments && a.day == day && Render(a.time) == s
  {
    if |appointments| == 0 then []
    else
      var rest := TakenTimes(appointments[1..], day);
      var a := appointments[0];
      assert forall b :: b in appointments <==> b == a || b in appointments[1..];
      if a.day == day then [Render(a.time)] + rest else rest
  }

  // ---------------------------------------------------------------------------
  // Availability window filter

  /** A slot as the filter compares it: formatted in UTC with its seconds set to 0. */
  function SlotKey(slot: string): string {
    FormatMinute(UtcMinuteOf(slot))
  }

  /** A well-formed slot's key is the slot with its seconds set to 0, still in "HH:MM:SS" form. */
  lemma SlotKeyDropsSeconds(slot: string)
    requires WellFormed(slot)
    ensures WellFormed(SlotKey(slot)) && SecondsOf(SlotKey(slot)) == 60 * ClockMinute(slot)
    ensures SlotKey(slot)[..5] == slot[..5]
  {
    UtcMinuteOfWellFormed(slot);
    FormatMinuteReadsBack(Some(ClockMinute(slot)));
    HourMinuteKept(slot);
  }

  /** A configured bound as the filter compares it: built in UTC, then seen in local time. */
  function BoundKey(time: string, offsetMinutes: int): (key: string)
    ensures UtcMinuteOf(time).None? ==> key == InvalidDate
    ensures WellFormed(time) ==> WellFormed(key) && SecondsOf(key) == 60 * ToLocal(ClockMinute(time), offsetMinutes)
  {
    var key := match UtcMinuteOf(time)
      case None => FormatMinute(None)
      case Some(m) => FormatMinute(Some(ToLocal(m, offsetMinutes)));
    if WellFormed(time) then
      UtcMinuteOfWellFormed(time);
      FormatMinuteReadsBack(Some(ToLocal(ClockMinute(time), offsetMinutes)));
      key
    else key
  }

  /** `slotKey >= fromKey && slotKey <= toKey` on JavaScript strings. */
  predicate InWindow(slot: string, fromKey: string, toKey: string) {
    !LexLess(SlotKey(slot), fromKey) && !LexLess(toKey, SlotKey(slot))
  }

  /** `xs` is `ys` with some elements dropped, the rest kept in order. */
  predicate IsSubsequence<T(==)>(xs: seq<T>, ys: seq<T>) {
    if |xs| == 0 then true
    else if |ys| == 0 then false
    else if xs[0] == ys[0] then IsSubsequence(xs[1..], ys[1..])
    else IsSubsequence(xs, ys[1..])
  }

  /** The slots inside the window, in their original order. */
  function WindowSlots(slots: seq<string>, fromKey: string, toKey: string): (kept: seq<string>)
    ensures forall s :: s in kept <==> s in slots && InWindow(s, fromKey, toKey)
  {
    if |slots| == 0 then []
    else
      var rest := WindowSlots(slots[1..], fromKey, toKey);
      assert forall s :: s in slots <==> s == slots[0] || s in slots[1..];
      if InWindow(slots[0], fromKey, toKey) then [slots[0]] + rest else rest
  }

  // ---------------------------------------------------------------------------
  // Building the result

  /** `time.substring(0, 5)`: the first five characters, or the whole string if shorter. */
  function Label(value: string): (prefix: string)
    ensures prefix <= value
    ensures |prefix| == if |value| < 5 then |value| else 5
  {
    if |value| <= 5 then value else value[..5]
  }

  /** One result entry per slot of the window, in order. */
  function MarkSlots(window: seq<string>, taken: seq<string>): (marked: seq<TimeSlot>)
    ensures |marked| == |window|
    ensures forall i :: 0 <= i < |marked| ==>
      && marked[i].value == window[i]
      && marked[i].available == (window[i] !in taken)
      && marked[i].labelText == Label(window[i])
  {
    if |window| == 0 then []
    else [TimeSlot(window[0], window[0] !in taken, Label(window[0]))] + MarkSlots(window[1..], taken)
  }

  /** The `value` fields of a result, in order. */
  function Values(marked: seq<TimeSlot>): (values: seq<string>)
    ensures |values| == |marked|
    ensures forall i :: 0 <= i < |marked| ==> values[i] == marked[i].value
  {
    if |marked| == 0 then [] else [marked[0].value] + Values(marked[1..])
  }

  /** The whole action: errors first, then the weekday gate, the window filter and the collision marker. */
  function GetAvailableTimes(
    session: Option<Session>,
    doctor: Option<Doctor>,
    date: int,
    appointments: seq<Appointment>,
    slots: seq<string>,
    offsetMinutes: int): (r: Result<seq<TimeSlot>>)
    ensures r.Err? <==> session.None? || !session.value.hasClinic || doctor.None?
    ensures r.Ok? ==> |r.value| <= |slots|
  {
    if session.None? then Err(UnauthorizedMessage)
    else if !session.value.hasClinic then Err(ClinicNotFoundMessage)
    else if doctor.None? then Err(DoctorNotFoundMessage)
    else
      var d := doctor.value;
      if !WorksOn(d, date) then Ok([])
      else
        var taken := TakenTimes(appointments, date);
        var window := WindowSlots(slots, BoundKey(d.availableFromTime, offsetMinutes), BoundKey(d.availableToTime, offsetMinutes));
        WindowIsSubsequence(slots, BoundKey(d.availableFromTime, offsetMinutes), BoundKey(d.availableToTime, offsetMinutes));
        SubsequenceLength(window, slots);
        Ok(MarkSlots(window, taken))
  }

  /** The slots of the doctor's window on a day the gate lets through. */
  function WindowOf(d: Doctor, slots: seq<string>, offsetMinutes: int): seq<string> {
    WindowSlots(slots, BoundKey(d.availableFromTime, offsetMinutes), BoundKey(d.availableToTime, offsetMinutes))
  }

  // ---------------------------------------------------------------------------
  // Properties

  lemma {:induction false} SubsequenceLength<T>(xs: seq<T>, ys: seq<T>)
    requires IsSubsequence(xs, ys)
    ensures |xs| <= |ys|
  {
    if |xs| > 0 {
      if xs[0] == ys[0] {
        SubsequenceLength(xs[1..], ys[1..]);
      } else {
        SubsequenceLength(xs, ys[1..]);
      }
    }
  }

  /** The window keeps slots in their original order and invents none. */
  lemma {:induction false} WindowIsSubsequence(slots: seq<string>, fromKey: string, toKey: string)
    ensures IsSubsequence(WindowSlots(slots, fromKey, toKey), slots)
  {
    if |slots| > 0 {
      WindowIsSubsequence(slots[1..], fromKey, toKey);
    }
  }

  lemma {:induction false} ValuesOfMarked(window: seq<string>, taken: seq<string>)
    ensures Values(MarkSlots(window, taken)) == window
  {
    var marked := MarkSlots(window, taken);
    assert |Values(marked)| == |window|;
    assert forall i :: 0 <= i < |window| ==> Values(marked)[i] == window[i];
  }

  /** Without a session the action fails before anything else is looked at. */
  lemma NoSessionFails(doctor: Option<Doctor>, date: int, appointments: seq<Appointment>, slots: seq<string>, offsetMinutes: int)
    ensures GetAvailableTimes(None, doctor, date, appointments, slots, offsetMinutes) == Err(UnauthorizedMessage)
  {
  }

  /** A doctor that cannot be found is an error, and no slots are produced. */
  lemma DoctorNotFoundFails(date: int, appointments: seq<Appointment>, slots: seq<string>, offsetMinutes: int)
    ensures GetAvailableTimes(Some(Session(true)), None, date, appointments, slots, offsetMinutes) == Err(DoctorNotFoundMessage)
  {
  }

  /** A date whose weekday is outside the doctor's range yields no slots (and no error). */
  lemma OutsideWeekdaysYieldsNothing(d: Doctor, date: int, appointments: seq<Appointment>, slots: seq<string>, offsetMinutes: int)
    requires DayOfWeek(date) < d.availableFromWeekday || DayOfWeek(date) > d.availableToWeekday
    ensures GetAvailableTimes(Some(Session(true)), Some(d), date, appointments, slots, offsetMinutes) == Ok([])
  {
  }

  /** A range whose first weekday is after its last one rejects every date: there is no wrap-around. */
  lemma InvertedWeekdaysYieldNothing(d: Doctor, appointments: seq<Appointment>, slots: seq<string>, offsetMinutes: int)
    requires d.availableFromWeekday > d.availableToWeekday
    ensures forall date :: GetAvailableTimes(Some(Session(true)), Some(d), date, appointments, slots, offsetMinutes) == Ok([])
  {
  }

  /**
    On a working day, the result has one entry per slot of the window, in
    order; the values are the window's slots unchanged; and the values form a
    subsequence of the canonical slots, so no slot is invented or reordered.
  */
  lemma ResultFollowsWindow(d: Doctor, date: int, appointments: seq<Appointment>, slots: seq<string>, offsetMinutes: int)
    requires WorksOn(d, date)
    ensures var r := GetAvailableTimes(Some(Session(true)), Some(d), date, appointments, slots, offsetMinutes);
      && r.Ok?
      && Values(r.value) == WindowOf(d, slots, offsetMinutes)
      && |r.value| == |WindowOf(d, slots, offsetMinutes)|
      && IsSubsequence(Values(r.value), slots)
  {
    ValuesOfMarked(WindowOf(d, slots, offsetMinutes), TakenTimes(appointments, date));
    WindowIsSubsequence(slots, BoundKey(d.availableFromTime, offsetMinutes), BoundKey(d.availableToTime, offsetMinutes));
  }

  /**
    Each entry's `available` flag is false exactly when some appointment on
    the requested day is formatted to the entry's value; its label is the
    first five characters of the value.
  */
  lemma EntriesMarkCollisions(d: Doctor, date: int, appointments: seq<Appointment>, slots: seq<string>, offsetMinutes: int, i: int)
    requires WorksOn(d, date)
    requires var r := GetAvailableTimes(Some(Session(true)), Some(d), date, appointments, slots, offsetMinutes);
      0 <= i < |r.value|
    ensures var e := GetAvailableTimes(Some(Session(true)), Some(d), date, appointments, slots, offsetMinutes).value[i];
      && e.value in slots
      && (!e.available <==> exists a :: a in appointments && a.day == date && Render(a.time) == e.value)
      && e.labelText == Label(e.value)
  {
  }

  /**
    For a well-formed slot value, a collision is an appointment on the
    requested day at the very same second of the day; for such values the
    label is "HH:MM".
  */
  lemma WellFormedCollisions(d: Doctor, date: int, appointments: seq<Appointment>, slots: seq<string>, offsetMinutes: int, i: int)
    requires WorksOn(d, date)
    requires var r := GetAvailableTimes(Some(Session(true)), Some(d), date, appointments, slots, offsetMinutes);
      0 <= i < |r.value| && WellFormed(r.value[i].value)
    ensures var e := GetAvailableTimes(Some(Session(true)), Some(d), date, appointments, slots, offsetMinutes).value[i];
      && (!e.available <==> exists a :: a in appointments && a.day == date && a.time == SecondsOf(e.value))
      && e.labelText == e.value[..5]
  {
    var e := GetAvailableTimes(Some(Session(true)), Some(d), date, appointments, slots, offsetMinutes).value[i];
    EntriesMarkCollisions(d, date, appointments, slots, offsetMinutes, i);
    forall a | a in appointments
      ensures Render(a.time) == e.value <==> a.time == SecondsOf(e.value)
    {
      RenderMatches(a.time, e.value);
    }
  }

  /** Appointments on any other day never change the result. */
  lemma OtherDaysIrrelevant(
    session: Option<Session>, doctor: Option<Doctor>, date: int,
    appointments: seq<Appointment>, other: Appointment, slots: seq<string>, offsetMinutes: int)
    requires other.day != date
    ensures GetAvailableTimes(session, doctor, date, appointments + [other], slots, offsetMinutes)
         == GetAvailableTimes(session, doctor, date, appointments, slots, offsetMinutes)
  {
    TakenTimesIgnoresOtherDays(appointments, other, date);
  }

  lemma {:induction false} TakenTimesIgnoresOtherDays(appointments: seq<Appointment>, other: Appointment, day: int)
    requires other.day != day
    ensures TakenTimes(appointments + [other], day) == TakenTimes(appointments, day)
  {
    if |appointments| == 0 {
      assert TakenTimes([other], day) == TakenTimes([other][1..], day);
    } else {
      assert (appointments + [other])[1..] == appointments[1..] + [other];
      TakenTimesIgnoresOtherDays(appointments[1..], other, day);
    }
  }

  /**
    The window filter, for well-formed slots and bounds that read as times:
    a slot is kept exactly when its hour and minute (taken as UTC, seconds
    dropped) lie between the bounds' hours and minutes shifted to local time.
    Only the bounds are shifted, never the slots.
  */
  lemma WindowExact(slots: seq<string>, fromTime: string, toTime: string, offsetMinutes: int, lo: MinuteOfDay, hi: MinuteOfDay)
    requires forall s :: s in slots ==> WellFormed(s)
    requires UtcMinuteOf(fromTime) == Some(lo) && UtcMinuteOf(toTime) == Some(hi)
    ensures forall s :: s in WindowSlots(slots, BoundKey(fromTime, offsetMinutes), BoundKey(toTime, offsetMinutes)) <==>
      s in slots && ToLocal(lo, offsetMinutes) <= ClockMinute(s) <= ToLocal(hi, offsetMinutes)
  {
    var fromKey, toKey := BoundKey(fromTime, offsetMinutes), BoundKey(toTime, offsetMinutes);
    forall s | s in slots
      ensures InWindow(s, fromKey, toKey) <==> ToLocal(lo, offsetMinutes) <= ClockMinute(s) <= ToLocal(hi, offsetMinutes)
    {
      UtcMinuteOfWellFormed(s);
      RenderOrder(ClockMinute(s) * 60, ToLocal(lo, offsetMinutes) * 60);
      RenderOrder(ToLocal(hi, offsetMinutes) * 60, ClockMinute(s) * 60);
    }
  }

  /**
    With no offset and well-formed bounds, the window is exactly the slots
    from the first bound's hour and minute to the second's, inclusive; the
    bounds' seconds play no part.
  */
  lemma WindowExactWithoutOffset(d: Doctor, slots: seq<string>)
    requires forall s :: s in slots ==> WellFormed(s)
    requires WellFormed(d.availableFromTime) && WellFormed(d.availableToTime)
    ensures forall s :: s in WindowOf(d, slots, 0) <==>
      s in slots && ClockMinute(d.availableFromTime) <= ClockMinute(s) <= ClockMinute(d.availableToTime)
  {
    UtcMinuteOfWellFormed(d.availableFromTime);
    UtcMinuteOfWellFormed(d.availableToTime);
    WindowExact(slots, d.availableFromTime, d.availableToTime, 0, ClockMinute(d.availableFromTime), ClockMinute(d.availableToTime));
  }

  /**
    A start bound that does not read as a time formats as "Invalid Date",
    which every formatted slot sorts before, so the window is empty.
  */
  lemma UnreadableStartYieldsNoSlots(d: Doctor, slots: seq<string>, offsetMinutes: int)
    requires forall s :: s in slots ==> WellFormed(s)
    requires UtcMinuteOf(d.availableFromTime).None?
    ensures WindowOf(d, slots, offsetMinutes) == []
  {
    var fromKey, toKey := BoundKey(d.availableFromTime, offsetMinutes), BoundKey(d.availableToTime, offsetMinutes);
    assert fromKey == InvalidDate;
    forall s | s in slots
      ensures !InWindow(s, fromKey, toKey)
    {
      UtcMinuteOfWellFormed(s);
      assert SlotKey(s) == Render(ClockMinute(s) * 60);
      RenderBeforeInvalidDate(ClockMinute(s) * 60);
    }
    NothingInWindow(slots, fromKey, toKey);
  }

  lemma {:induction false} NothingInWindow(slots: seq<string>, fromKey: string, toKey: string)
    requires forall s :: s in slots ==> !InWindow(s, fromKey, toKey)
    ensures WindowSlots(slots, fromKey, toKey) == []
  {
    if |slots| > 0 {
      assert slots[0] in slots;
      assert forall s :: s in slots[1..] ==> s in slots;
      NothingInWindow(slots[1..], fromKey, toKey);
    }
  }
}
