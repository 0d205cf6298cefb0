/** The patient-facing operations: the slot grid, booking, the patient's lists
    and cancellation. The clock and the signed-in caller are parameters:
    `now` is the current instant and `today` the current day number. */
module AppointmentController {
  import opened Models
  import opened Tables
  import opened Scheduling
  import opened Data

  /** The booking page shows the grid for a week. */
  const BookingWindowDays: int := 7

  /** What a booking request comes to. */
  datatype BookOutcome =
    | Unauthorized          // the caller's identity claim is not a number
    | Invalid               // the posted StartTime is missing or out of range
    | SlotAlreadyBooked     // a pending row of the doctor overlaps the slot
    | Booked(id: int)       // the row was inserted under this key

  /** The bookable slots of a doctor over `days` days from `today`: each day with
      a free slot, mapped to its free times of day in increasing order. */
  method GetAvailableTimeSlots(db: ClinicDb, doctorId: int, days: int, today: int, now: int)
    returns (slots: map<int, seq<int>>)
    ensures slots == Grid(db.appointments, doctorId, now, today, days)
  {
    var doctorAppointments := LoadDoctorRows(db.appointments, doctorId);
    slots := map[];
    var i := 0;
    while i < days
      invariant 0 <= i && (i <= days || i == 0)
      invariant slots == Grid(db.appointments, doctorId, now, today, i)
    {
      var currentDate := today + i;
      var daySlots := DaySlots(db.appointments, doctorAppointments, doctorId, currentDate, now);
      assert Grid(db.appointments, doctorId, now, today, i + 1)
        == if daySlots == [] then slots else slots[currentDate := daySlots];
      if |daySlots| > 0 {
        slots := slots[currentDate := daySlots];
      }
      i := i + 1;
    }
  }

  /** The query that loads the doctor's rows of the appointment table, the ones
      the slot grid tests. */
  method LoadDoctorRows(table: seq<Appointment>, doctorId: int) returns (rows: seq<Appointment>)
    ensures forall a :: a in rows <==> a in table && a.doctorId == doctorId
  {
    rows := Where(table, (a: Appointment) => a.doctorId == doctorId);
  }

  /** The inner loop of the slot grid: the free times of day `currentDate`, found
      by testing each whole hour from opening to closing against the doctor's
      appointments `doctorAppointments`. */
  method DaySlots(table: seq<Appointment>, doctorAppointments: seq<Appointment>, doctorId: int,
                  currentDate: int, now: int)
    returns (daySlots: seq<int>)
    requires forall a :: a in doctorAppointments <==> a in table && a.doctorId == doctorId
    ensures daySlots == FreeTimes(table, doctorId, now, currentDate)
  {
    daySlots := [];
    var time := OpeningTime;
    while time < ClosingTime
      invariant daySlots + FreeTimesFrom(table, doctorId, now, currentDate, time)
        == FreeTimes(table, doctorId, now, currentDate)
      decreases ClosingTime - time
    {
      ghost var previous := daySlots;
      ghost var rest := FreeTimesFrom(table, doctorId, now, currentDate, time + SlotStep);
      var slotStart := currentDate * MinutesPerDay + time;
      var isSlotBooked := exists a :: a in doctorAppointments && Blocks(a, slotStart);
      assert isSlotBooked == SlotTaken(table, doctorId, slotStart) by {
        if isSlotBooked {
          var a :| a in doctorAppointments && Blocks(a, slotStart);
          assert a in table && a.doctorId == doctorId;
        }
      }
      ghost var offered := if slotStart > now && !isSlotBooked then [time] else [];
      assert FreeTimesFrom(table, doctorId, now, currentDate, time) == offered + rest;
      if slotStart > now && !isSlotBooked {
        daySlots := daySlots + [time];
      }
      assert daySlots + rest == previous + (offered + rest);
      time := time + SlotStep;
    }
    assert FreeTimesFrom(table, doctorId, now, currentDate, time) == [];
  }

  /** The booking page of a doctor: not found when no doctor has that key,
      otherwise the slot grid for the coming week. */
  method ShowBookingForm(db: ClinicDb, doctorId: int, today: int, now: int)
    returns (slots: Option<map<int, seq<int>>>)
    ensures slots.None? <==> forall i :: 0 <= i < |db.doctors| ==> db.doctors[i].id != doctorId
    ensures slots.Some? ==> slots.value == Grid(db.appointments, doctorId, now, today, BookingWindowDays)
  {
    var found := FindIndex(db.doctors, DoctorKey, doctorId);
    if found.None? {
      return None;
    }
    var grid := GetAvailableTimeSlots(db, doctorId, BookingWindowDays, today, now);
    return Some(grid);
  }

  /** Books the slot starting at the posted StartTime for the caller. The request
      is rejected without any write when the caller's id is unreadable, when the
      form is invalid, or when a pending row of the doctor overlaps the slot;
      otherwise exactly one row is appended, owned by the caller, lasting 45
      minutes and pending, whatever EndTime, PatientId and Status were posted. */
  method Book(db: ClinicDb, userId: Option<int>, form: AppointmentForm) returns (outcome: BookOutcome)
    requires db.Valid()
    modifies db
    ensures db.Valid()
    ensures db.doctors == old(db.doctors) && db.specialties == old(db.specialties)
    ensures userId.None? ==> outcome == Unauthorized
    ensures userId.Some? && !IsValidForm(form) ==> outcome == Invalid
    ensures userId.Some? && IsValidForm(form) && SlotTaken(old(db.appointments), form.doctorId, form.startTime.value)
      ==> outcome == SlotAlreadyBooked
    ensures outcome.Booked? <==>
      userId.Some? && IsValidForm(form) && !SlotTaken(old(db.appointments), form.doctorId, form.startTime.value)
    ensures !outcome.Booked? ==> db.appointments == old(db.appointments)
    ensures outcome.Booked? ==>
      && outcome.id == FreshKey(old(db.appointments), AppointmentKey)
      && db.appointments == old(db.appointments) + [Appointment(
           outcome.id, form.startTime.value, form.startTime.value + SlotLength,
           form.doctorId, userId.value, Some(Pending))]
    ensures old(NoDoubleBooking(db.appointments)) ==> NoDoubleBooking(db.appointments)
  {
    if userId.None? {
      return Unauthorized;
    }
    if !IsValidForm(form) {
      return Invalid;
    }
    var start := form.startTime.value;
    var slotEnd := start + SlotLength;
    var isSlotBooked := exists a :: a in db.appointments && a.doctorId == form.doctorId && Blocks(a, start);
    if isSlotBooked {
      return SlotAlreadyBooked;
    }
    var id := FreshKey(db.appointments, AppointmentKey);
    var row := Appointment(id, start, slotEnd, form.doctorId, userId.value, Some(Pending));
    AppendFreshKey(db.appointments, AppointmentKey, row);
    if NoDoubleBooking(db.appointments) {
      BookingKeepsNoDoubleBooking(db.appointments, row);
    }
    db.appointments := db.appointments + [row];
    return Booked(id);
  }

  /** The caller's appointments, latest start first. */
  method MyBookings(db: ClinicDb, userId: int) returns (bookings: seq<Appointment>)
    ensures forall a ::
      multiset(bookings)[a] == (if a.patientId == userId then multiset(db.appointments)[a] else 0)
    ensures StartDescending(bookings)
  {
    var mine := Where(db.appointments, (a: Appointment) => a.patientId == userId);
    bookings := OrderByStartDescending(mine);
  }

  /** The caller's appointments, in no particular order. */
  method MySchedule(db: ClinicDb, userId: int) returns (bookings: seq<Appointment>)
    ensures forall a ::
      multiset(bookings)[a] == (if a.patientId == userId then multiset(db.appointments)[a] else 0)
  {
    bookings := Where(db.appointments, (a: Appointment) => a.patientId == userId);
  }

  /** Cancels appointment `id` for its owner. When the appointment does not exist
      or belongs to someone else nothing changes, and both cases give the same
      outcome. */
  method Cancel(db: ClinicDb, userId: int, id: int) returns (canceled: bool)
    requires db.Valid()
    modifies db
    ensures db.Valid()
    ensures db.doctors == old(db.doctors) && db.specialties == old(db.specialties)
    ensures var k := FindIndex(old(db.appointments), AppointmentKey, id);
      canceled == (k.Some? && old(db.appointments)[k.value].patientId == userId)
    ensures canceled ==>
      db.appointments == WithStatus(old(db.appointments), FindIndex(old(db.appointments), AppointmentKey, id).value, Some(Canceled))
    ensures !canceled ==> db.appointments == old(db.appointments)
    ensures old(NoDoubleBooking(db.appointments)) ==> NoDoubleBooking(db.appointments)
  {
    var k := FindIndex(db.appointments, AppointmentKey, id);
    if k.Some? && db.appointments[k.value].patientId == userId {
      if NoDoubleBooking(db.appointments) {
        ClosingKeepsNoDoubleBooking(db.appointments, k.value, Some(Canceled));
      }
      db.SetStatus(k.value, Canceled);
      canceled := true;
    } else {
      canceled := false;
    }
  }
}
