/**
  What the validator guarantees to the calculator, and what it does not,
  with the worked scenarios of a doctor who works Monday to Friday.
*/
module ConfiguredAvailability {
  import opened Outcome
  import opened Clock
  import opened Availability
  import opened DoctorSchema

  /** The doctor record stored from an accepted form. */
  function DoctorOf(f: DoctorForm): Doctor {
    Doctor(f.availableFromWeekday, f.availableToWeekday, f.availableFromTime, f.availableToTime)
  }

  /**
    Nothing ties the two weekdays together: a form whose first weekday is
    after its last one is accepted, and the stored doctor then has no slots
    on any date.
  */
  lemma InvertedWeekdaysAcceptedButNeverAvailable(appointments: seq<Appointment>, slots: seq<string>, offsetMinutes: int)
    ensures var f := DoctorForm("Ana", "Cardiologia", 15000, 5, 1, "08:00:00", "18:00:00");
      && Accepts(f)
      && forall date :: GetAvailableTimes(Some(Session(true)), Some(DoctorOf(f)), date, appointments, slots, offsetMinutes) == Ok([])
  {
    var f := DoctorForm("Ana", "Cardiologia", 15000, 5, 1, "08:00:00", "18:00:00");
    assert LexLess(f.availableFromTime, f.availableToTime);
    InvertedWeekdaysYieldNothing(DoctorOf(f), appointments, slots, offsetMinutes);
  }

  /**
    For an accepted form with "HH:MM:SS" times, at zero offset on a working
    day, the result lists exactly the canonical slots from the start's hour
    and minute to the end's, and that range is never inverted.
  */
  lemma AcceptedFormWindow(f: DoctorForm, date: int, appointments: seq<Appointment>, slots: seq<string>)
    requires Accepts(f)
    requires WellFormed(f.availableFromTime) && WellFormed(f.availableToTime)
    requires forall s :: s in slots ==> WellFormed(s)
    requires WorksOn(DoctorOf(f), date)
    ensures ClockMinute(f.availableFromTime) <= ClockMinute(f.availableToTime)
    ensures var r := GetAvailableTimes(Some(Session(true)), Some(DoctorOf(f)), date, appointments, slots, 0);
      && r.Ok?
      && forall s :: s in Values(r.value) <==>
           s in slots && ClockMinute(f.availableFromTime) <= ClockMinute(s) <= ClockMinute(f.availableToTime)
  {
    AcceptedTimesOrdered(f);
    ResultFollowsWindow(DoctorOf(f), date, appointments, slots, 0);
    WindowExactWithoutOffset(DoctorOf(f), slots);
  }

  // ---------------------------------------------------------------------------
  // Scenarios: a doctor working Monday to Friday from 09:00 to 10:00, and the
  // half-hour slots 08:30, 09:00, 09:30, 10:00 and 10:30

  const Monday := 20241    // 2025-06-02
  const Saturday := 20246  // 2025-06-07

  function WeekdayDoctor(): Doctor {
    Doctor(1, 5, "09:00:00", "10:00:00")
  }

  function MorningSlots(): seq<string> {
    ["08:30:00", "09:00:00", "09:30:00", "10:00:00", "10:30:00"]
  }

  /** Five well-formed slots on the minute, half an hour apart from 08:30. */
  predicate HalfHourMorning(slots: seq<string>) {
    && |slots| == 5
    && forall i :: 0 <= i < 5 ==>
         WellFormed(slots[i]) && ClockMinute(slots[i]) == 510 + 30 * i && SecondsOf(slots[i]) == 60 * (510 + 30 * i)
  }

  /** Well-formed bounds at 09:00 and 10:00. */
  predicate NineToTen(d: Doctor) {
    && WellFormed(d.availableFromTime) && ClockMinute(d.availableFromTime) == 540
    && WellFormed(d.availableToTime) && ClockMinute(d.availableToTime) == 600
  }

  /** The concrete doctor and slots above meet the scenarios' premises. */
  lemma ScenarioInputs()
    ensures HalfHourMorning(MorningSlots()) && NineToTen(WeekdayDoctor())
  {
    var slots := MorningSlots();
    forall i | 0 <= i < 5
      ensures WellFormed(slots[i]) && ClockMinute(slots[i]) == 510 + 30 * i && SecondsOf(slots[i]) == 60 * (510 + 30 * i)
    {
    }
  }

  /** A Saturday is outside Monday to Friday: no slots. */
  lemma SaturdayHasNoSlots(appointments: seq<Appointment>)
    ensures GetAvailableTimes(Some(Session(true)), Some(WeekdayDoctor()), Saturday, appointments, MorningSlots(), 0) == Ok([])
  {
    assert DayOfWeek(Saturday) == 6;
    OutsideWeekdaysYieldsNothing(WeekdayDoctor(), Saturday, appointments, MorningSlots(), 0);
  }

  lemma {:induction false} WindowStep(slots: seq<string>, fromKey: string, toKey: string)
    requires |slots| > 0
    ensures WindowSlots(slots, fromKey, toKey)
         == (if InWindow(slots[0], fromKey, toKey) then [slots[0]] else []) + WindowSlots(slots[1..], fromKey, toKey)
  {
  }

  /** Filtering five slots with bounds that admit exactly the middle three. */
  lemma MiddleThreeKept(slots: seq<string>, fromKey: string, toKey: string)
    requires |slots| == 5
    requires !InWindow(slots[0], fromKey, toKey) && !InWindow(slots[4], fromKey, toKey)
    requires InWindow(slots[1], fromKey, toKey) && InWindow(slots[2], fromKey, toKey) && InWindow(slots[3], fromKey, toKey)
    ensures WindowSlots(slots, fromKey, toKey) == slots[1..4]
  {
    var s1, s2, s3, s4 := slots[1..], slots[2..], slots[3..], slots[4..];
    assert s4[1..] == [];
    WindowStep(s4, fromKey, toKey);
    assert s3[1..] == s4;
    WindowStep(s3, fromKey, toKey);
    assert WindowSlots(s3, fromKey, toKey) == [slots[3]];
    assert s2[1..] == s3;
    WindowStep(s2, fromKey, toKey);
    assert WindowSlots(s2, fromKey, toKey) == [slots[2], slots[3]];
    assert s1[1..] == s2;
    WindowStep(s1, fromKey, toKey);
    assert WindowSlots(s1, fromKey, toKey) == [slots[1], slots[2], slots[3]];
    WindowStep(slots, fromKey, toKey);
    assert slots[1..4] == [slots[1], slots[2], slots[3]];
  }

  /** On a working day, the 09:00 to 10:00 window keeps 09:00, 09:30 and 10:00, both ends included. */
  lemma NineToTenWindow(d: Doctor, slots: seq<string>)
    requires HalfHourMorning(slots) && NineToTen(d)
    ensures WindowOf(d, slots, 0) == slots[1..4]
  {
    UtcMinuteOfWellFormed(d.availableFromTime);
    UtcMinuteOfWellFormed(d.availableToTime);
    var fromKey, toKey := BoundKey(d.availableFromTime, 0), BoundKey(d.availableToTime, 0);
    assert fromKey == Render(540 * 60) && toKey == Render(600 * 60);
    forall i | 0 <= i < 5
      ensures InWindow(slots[i], fromKey, toKey) <==> 1 <= i <= 3
    {
      UtcMinuteOfWellFormed(slots[i]);
      RenderOrder(ClockMinute(slots[i]) * 60, 540 * 60);
      RenderOrder(600 * 60, ClockMinute(slots[i]) * 60);
    }
    MiddleThreeKept(slots, fromKey, toKey);
  }

  /**
    With no appointments, a Monday lists 09:00, 09:30 and 10:00, all
    available, labelled "09:00", "09:30" and "10:00".
  */
  lemma MondayWithoutBookings(d: Doctor, slots: seq<string>)
    requires HalfHourMorning(slots) && NineToTen(d) && d.availableFromWeekday == 1 && d.availableToWeekday == 5
    ensures var r := GetAvailableTimes(Some(Session(true)), Some(d), Monday, [], slots, 0);
      && r.Ok? && |r.value| == 3
      && forall i :: 0 <= i < 3 ==>
           r.value[i].value == slots[i + 1] && r.value[i].available && r.value[i].labelText == slots[i + 1][..5]
  {
    assert DayOfWeek(Monday) == 1;
    NineToTenWindow(d, slots);
  }

  /** A single booking at 09:30 takes the 09:30 slot and neither of its neighbours. */
  lemma BookingAtNineThirty(slots: seq<string>, booking: Appointment)
    requires HalfHourMorning(slots)
    requires booking.day == Monday && booking.time == 34200
    ensures slots[1] !in TakenTimes([booking], Monday)
    ensures slots[2] in TakenTimes([booking], Monday)
    ensures slots[3] !in TakenTimes([booking], Monday)
  {
    assert TakenTimes([booking], Monday) == [Render(booking.time)] by {
      assert [booking][1..] == [];
    }
    assert SecondsOf(slots[1]) == 32400 && SecondsOf(slots[2]) == 34200 && SecondsOf(slots[3]) == 36000;
    RenderMatches(booking.time, slots[1]);
    RenderMatches(booking.time, slots[2]);
    RenderMatches(booking.time, slots[3]);
  }

  /** With one appointment at 09:30 that Monday, only the 09:30 slot is taken. */
  lemma MondayWithOneBooking(d: Doctor, slots: seq<string>, booking: Appointment)
    requires HalfHourMorning(slots) && NineToTen(d) && d.availableFromWeekday == 1 && d.availableToWeekday == 5
    requires booking.day == Monday && booking.time == 34200
    ensures var r := GetAvailableTimes(Some(Session(true)), Some(d), Monday, [booking], slots, 0);
      && r.Ok? && |r.value| == 3
      && (forall i :: 0 <= i < 3 ==> r.value[i].value == slots[i + 1])
      && r.value[0].available && !r.value[1].available && r.value[2].available
  {
    assert DayOfWeek(Monday) == 1;
    NineToTenWindow(d, slots);
    BookingAtNineThirty(slots, booking);
    var window := WindowOf(d, slots, 0);
    assert |window| == 3 && window[0] == slots[1] && window[1] == slots[2] && window[2] == slots[3];
  }

  /** An unknown doctor is an error. */
  lemma UnknownDoctorScenario(appointments: seq<Appointment>)
    ensures GetAvailableTimes(Some(Session(true)), None, Monday, appointments, MorningSlots(), 0) == Err("Médico não encontrado")
  {
  }
}
