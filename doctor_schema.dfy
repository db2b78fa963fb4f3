/**
  The validator of the doctor form (upsertDoctorSchema).

  Each field check that fails adds one issue on that field's path; the
  cross-field refinement, which asks that the start time come before the end
  time in JavaScript's string order, adds its issue on the end time's path.
  The refinement runs even when field checks have failed, because those
  failures only mark the parse as dirty. A form is accepted when there are no
  issues.
*/
module DoctorSchema {
  import opened Outcome
  import opened Clock

  /** The validated fields; the optional `id` is not part of this model. */
  datatype DoctorForm = DoctorForm(
    name: string,
    specialty: string,
    appointmentPriceInCents: int,
    availableFromWeekday: int,
    availableToWeekday: int,
    availableFromTime: string,
    availableToTime: string)

  /** The path an issue is reported on. */
  datatype Field =
    | Name
    | Specialty
    | AppointmentPriceInCents
    | AvailableFromWeekday
    | AvailableToWeekday
    | AvailableFromTime
    | AvailableToTime

  /** A validation issue; `message` is None where the schema leaves the library's default message. */
  datatype Issue = Issue(path: Field, message: Option<string>)

  const NameRequired: string := "Nome é obrigatório"
  const SpecialtyRequired: string := "Especialização é obrigatória"
  const PriceRequired: string := "Preço da consulta é obrigatório"
  const FromTimeRequired: string := "Horário de início é obrigatório"
  const ToTimeRequired: string := "Horário de término é obrigatório"
  const OrderMessage: string := "O dia inicial deve ser anterior ao dia final"

  /** One issue when the check fails, none when it passes. */
  function Check(ok: bool, path: Field, message: Option<string>): seq<Issue> {
    if ok then [] else [Issue(path, message)]
  }

  /** The issues of a form, in the order the schema checks its fields; the refinement comes last. */
  function Validate(f: DoctorForm): (issues: seq<Issue>)
    ensures issues == [] <==>
      && |f.name| >= 1 && |f.specialty| >= 1 && f.appointmentPriceInCents >= 1
      && 0 <= f.availableFromWeekday <= 6 && 0 <= f.availableToWeekday <= 6
      && |f.availableFromTime| >= 1 && |f.availableToTime| >= 1
      && LexLess(f.availableFromTime, f.availableToTime)
    ensures !LexLess(f.availableFromTime, f.availableToTime) ==>
      |issues| > 0 && issues[|issues| - 1] == Issue(AvailableToTime, Some(OrderMessage))
  {
    Check(|f.name| >= 1, Name, Some(NameRequired))
    + Check(|f.specialty| >= 1, Specialty, Some(SpecialtyRequired))
    + Check(f.appointmentPriceInCents >= 1, AppointmentPriceInCents, Some(PriceRequired))
    + Check(f.availableFromWeekday >= 0, AvailableFromWeekday, None)
    + Check(f.availableFromWeekday <= 6, AvailableFromWeekday, None)
    + Check(f.availableToWeekday >= 0, AvailableToWeekday, None)
    + Check(f.availableToWeekday <= 6, AvailableToWeekday, None)
    + Check(|f.availableFromTime| >= 1, AvailableFromTime, Some(FromTimeRequired))
    + Check(|f.availableToTime| >= 1, AvailableToTime, Some(ToTimeRequired))
    + Check(LexLess(f.availableFromTime, f.availableToTime), AvailableToTime, Some(OrderMessage))
  }

  predicate Accepts(f: DoctorForm) {
    Validate(f) == []
  }

  /** What the schema demands of each field, stated field by field. */
  predicate Violates(f: DoctorForm, field: Field) {
    match field
    case Name => f.name == []
    case Specialty => f.specialty == []
    case AppointmentPriceInCents => f.appointmentPriceInCents < 1
    case AvailableFromWeekday => !(0 <= f.availableFromWeekday <= 6)
    case AvailableToWeekday => !(0 <= f.availableToWeekday <= 6)
    case AvailableFromTime => f.availableFromTime == []
    case AvailableToTime => f.availableToTime == [] || !LexLess(f.availableFromTime, f.availableToTime)
  }

  /** An issue is reported on a field exactly when that field breaks its constraint. */
  lemma IssueOnFieldIff(f: DoctorForm, field: Field)
    ensures (exists issue :: issue in Validate(f) && issue.path == field) <==> Violates(f, field)
  {
    if Violates(f, field) {
      match field
      case Name => assert Issue(Name, Some(NameRequired)) in Validate(f);
      case Specialty => assert Issue(Specialty, Some(SpecialtyRequired)) in Validate(f);
      case AppointmentPriceInCents => assert Issue(AppointmentPriceInCents, Some(PriceRequired)) in Validate(f);
      case AvailableFromWeekday => assert Issue(AvailableFromWeekday, None) in Validate(f);
      case AvailableToWeekday => assert Issue(AvailableToWeekday, None) in Validate(f);
      case AvailableFromTime => assert Issue(AvailableFromTime, Some(FromTimeRequired)) in Validate(f);
      case AvailableToTime =>
        if f.availableToTime == [] {
          assert Issue(AvailableToTime, Some(ToTimeRequired)) in Validate(f);
        } else {
          assert Issue(AvailableToTime, Some(OrderMessage)) in Validate(f);
        }
    }
  }

  /** A form is accepted exactly when no field breaks its constraint. */
  lemma AcceptsIff(f: DoctorForm)
    ensures Accepts(f) <==> forall field :: !Violates(f, field)
  {
    if !Accepts(f) {
      var issue := Validate(f)[0];
      IssueOnFieldIff(f, issue.path);
    } else {
      forall field ensures !Violates(f, field) {
        IssueOnFieldIff(f, field);
      }
    }
  }

  /**
    The ordering refinement fails exactly when the start time is not before
    the end time in string order, and its issue is reported on the end time.
  */
  lemma OrderingIssueOnEndTime(f: DoctorForm)
    ensures Issue(AvailableToTime, Some(OrderMessage)) in Validate(f) <==> !LexLess(f.availableFromTime, f.availableToTime)
    ensures forall issue :: issue in Validate(f) && issue.message == Some(OrderMessage) ==> issue.path == AvailableToTime
  {
  }

  /** Equal start and end times are rejected. */
  lemma EqualTimesRejected(f: DoctorForm)
    requires f.availableFromTime == f.availableToTime
    ensures !Accepts(f)
    ensures Issue(AvailableToTime, Some(OrderMessage)) in Validate(f)
  {
    LexLessIrreflexive(f.availableFromTime);
  }

  /**
    Between two "HH:MM:SS" times an accepted form's start is strictly
    earlier on the clock, seconds included.
  */
  lemma AcceptedTimesOrdered(f: DoctorForm)
    requires Accepts(f)
    requires WellFormed(f.availableFromTime) && WellFormed(f.availableToTime)
    ensures SecondsOf(f.availableFromTime) < SecondsOf(f.availableToTime)
    ensures ClockMinute(f.availableFromTime) <= ClockMinute(f.availableToTime)
  {
    AcceptsIff(f);
    assert !Violates(f, AvailableToTime);
    WellFormedOrder(f.availableFromTime, f.availableToTime);
  }

  /**
    The order is by characters, not by the clock: a start of "9:00:00" is
    not before an end of "10:00:00", so the pair is rejected.
  */
  lemma UnpaddedHourComparesAsText(f: DoctorForm)
    requires f.availableFromTime == "9:00:00" && f.availableToTime == "10:00:00"
    ensures Issue(AvailableToTime, Some(OrderMessage)) in Validate(f)
  {
  }
}
