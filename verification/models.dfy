/** The records the booking core works on, and the validation attached to them.

    Instants are whole minutes counted from 0001-01-01 00:00, the origin of
    .NET's DateTime; a calendar date is a day number counted from the same
    origin, so day `d` starts at minute `d * MinutesPerDay`. */
module Models {

  datatype Option<+T> = None | Some(value: T)

  const MinutesPerDay: int := 24 * 60

  /** Number of days from 0001-01-01 to 1 January of year `y` (proleptic Gregorian calendar). */
  function DaysBeforeYear(y: int): (days: int)
    requires y >= 1
    ensures y > 1 ==> days >= 365 * (y - 1)
  {
    var p := y - 1;
    365 * p + p / 4 - p / 100 + p / 400
  }

  /** Bounds of the accepted StartTime: "1/1/2020" and "1/1/2100", both midnight, both inclusive. */
  const EarliestStart: int := DaysBeforeYear(2020) * MinutesPerDay
  const LatestStart: int := DaysBeforeYear(2100) * MinutesPerDay

  /** The status strings the application writes; a row may also have no status at all. */
  const Pending: string := "Pending"
  const Completed: string := "Completed"
  const Canceled: string := "Canceled"

  /** A stored appointment row. The doctor and patient are plain integer references. */
  datatype Appointment = Appointment(
    id: int,
    startTime: int,
    endTime: int,
    doctorId: int,
    patientId: int,
    status: Option<string>)

  /** A row still holds its time when its status is "Pending" or absent (legacy rows). */
  predicate IsPending(status: Option<string>)
  {
    status == None || status == Some(Pending)
  }

  /** An appointment as posted by a client. `startTime` is None when the field was
      missing or could not be bound to an instant; the other fields carry no rule. */
  datatype AppointmentForm = AppointmentForm(
    startTime: Option<int>,
    endTime: int,
    doctorId: int,
    patientId: int,
    status: Option<string>)

  /** StartTime is required and must lie in [1 Jan 2020, 1 Jan 2100]. */
  predicate ValidStartTime(t: Option<int>)
  {
    t.Some? && EarliestStart <= t.value <= LatestStart
  }

  /** Whether a posted form passes validation: only StartTime carries annotations. */
  predicate IsValidForm(form: AppointmentForm)
  {
    ValidStartTime(form.startTime)
  }

  /** The part of a doctor the core needs: its key and its specialty reference. */
  datatype Doctor = Doctor(id: int, specialtyId: int)

  /** The part of a specialty the core needs: its key. */
  datatype Specialty = Specialty(id: int)

  const Int32Max: int := 0x7fff_ffff

  /** A doctor's SpecialtyId must lie in [1, int.MaxValue]. */
  predicate ValidSpecialtyRef(specialtyId: int)
  {
    1 <= specialtyId <= Int32Max
  }

  /** The accepted window is inclusive at both ends, and a missing StartTime is rejected. */
  lemma StartTimeWindow()
    ensures ValidStartTime(Some(EarliestStart)) && ValidStartTime(Some(LatestStart))
    ensures !ValidStartTime(Some(EarliestStart - 1)) && !ValidStartTime(Some(LatestStart + 1))
    ensures !ValidStartTime(None)
    ensures EarliestStart < LatestStart
  {
  }

  /** No instant of year 2200 (or any year from 2101 on) passes validation. */
  lemma LaterYearsRejected(y: int, minute: int)
    requires y > 2100
    requires DaysBeforeYear(y) * MinutesPerDay <= minute
    ensures !ValidStartTime(Some(minute))
  {
  }
}
