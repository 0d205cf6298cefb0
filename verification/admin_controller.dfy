/** The administrator's operations: adding and deleting specialties and doctors
    behind their referential guards, and the appointment status rewrites.
    `fieldsValid` stands for the framework's verdict on the annotations this
    model does not interpret (names, lengths, required text fields). */
module AdminController {
  import opened Models
  import opened Tables
  import opened Scheduling
  import opened Data

  /** What a delete request comes to. */
  datatype DeleteOutcome =
    | InUse      // refused: another row still refers to it
    | Deleted    // the row was removed
    | NotFound   // no row has that key; nothing happens

  /** A doctor still refers to specialty `id`. */
  predicate SpecialtyInUse(doctors: seq<Doctor>, id: int)
  {
    exists d :: d in doctors && d.specialtyId == id
  }

  /** Doctor `id` has a future appointment that still holds its time. */
  predicate HasFutureAppointments(appointments: seq<Appointment>, id: int, now: int)
  {
    exists a :: a in appointments && a.doctorId == id && a.startTime > now && IsPending(a.status)
  }

  /** Inserts a specialty under a fresh key when the form is valid; otherwise nothing changes. */
  method AddSpecialty(db: ClinicDb, fieldsValid: bool) returns (added: Option<int>)
    requires db.Valid()
    modifies db
    ensures db.Valid()
    ensures db.doctors == old(db.doctors) && db.appointments == old(db.appointments)
    ensures added.Some? <==> fieldsValid
    ensures added.None? ==> db.specialties == old(db.specialties)
    ensures added.Some? ==>
      && added.value == FreshKey(old(db.specialties), SpecialtyKey)
      && db.specialties == old(db.specialties) + [Specialty(added.value)]
  {
    if fieldsValid {
      var id := FreshKey(db.specialties, SpecialtyKey);
      AppendFreshKey(db.specialties, SpecialtyKey, Specialty(id));
      db.specialties := db.specialties + [Specialty(id)];
      return Some(id);
    }
    return None;
  }

  /** Deletes specialty `id` unless a doctor refers to it; a missing key is a no-op. */
  method DeleteSpecialty(db: ClinicDb, id: int) returns (outcome: DeleteOutcome)
    requires db.Valid()
    modifies db
    ensures db.Valid()
    ensures db.doctors == old(db.doctors) && db.appointments == old(db.appointments)
    ensures outcome == InUse <==> old(SpecialtyInUse(db.doctors, id))
    ensures outcome != Deleted ==> db.specialties == old(db.specialties)
    ensures outcome == NotFound <==>
      !old(SpecialtyInUse(db.doctors, id)) && forall i :: 0 <= i < |old(db.specialties)| ==> old(db.specialties)[i].id != id
    ensures outcome == Deleted ==>
      forall s :: s in db.specialties <==> s in old(db.specialties) && s.id != id
    ensures outcome == Deleted ==> |db.specialties| == |old(db.specialties)| - 1
  {
    var isLinked := exists d :: d in db.doctors && d.specialtyId == id;
    if isLinked {
      return InUse;
    }
    var k := FindIndex(db.specialties, SpecialtyKey, id);
    if k.None? {
      return NotFound;
    }
    RemoveKeyExactly(db.specialties, SpecialtyKey, k.value);
    db.specialties := RemoveAt(db.specialties, k.value);
    return Deleted;
  }

  /** Inserts a doctor under a fresh key when the form is valid, its specialty
      reference included; otherwise nothing changes. */
  method AddDoctor(db: ClinicDb, specialtyId: int, fieldsValid: bool) returns (added: Option<int>)
    requires db.Valid()
    modifies db
    ensures db.Valid()
    ensures db.specialties == old(db.specialties) && db.appointments == old(db.appointments)
    ensures added.Some? <==> fieldsValid && ValidSpecialtyRef(specialtyId)
    ensures added.None? ==> db.doctors == old(db.doctors)
    ensures added.Some? ==>
      && added.value == FreshKey(old(db.doctors), DoctorKey)
      && db.doctors == old(db.doctors) + [Doctor(added.value, specialtyId)]
  {
    if fieldsValid && ValidSpecialtyRef(specialtyId) {
      var id := FreshKey(db.doctors, DoctorKey);
      AppendFreshKey(db.doctors, DoctorKey, Doctor(id, specialtyId));
      db.doctors := db.doctors + [Doctor(id, specialtyId)];
      return Some(id);
    }
    return None;
  }

  /** Appointments that survive the removal of doctor `id`: the foreign key from
      an appointment to its doctor is required, so deleting the doctor cascades
      to the doctor's remaining (past, completed or canceled) appointments. */
  function SurvivingAppointments(appointments: seq<Appointment>, id: int): (r: seq<Appointment>)
    ensures forall a :: a in r <==> a in appointments && a.doctorId != id
  {
    Where(appointments, (a: Appointment) => a.doctorId != id)
  }

  /** Deletes doctor `id`, and by cascade its appointments, unless it has a
      future pending appointment; a missing key is a no-op. */
  method DeleteDoctor(db: ClinicDb, id: int, now: int) returns (outcome: DeleteOutcome)
    requires db.Valid()
    modifies db
    ensures db.Valid()
    ensures db.specialties == old(db.specialties)
    ensures outcome != Deleted ==> db.appointments == old(db.appointments)
    ensures outcome == Deleted ==> db.appointments == SurvivingAppointments(old(db.appointments), id)
    ensures old(NoDoubleBooking(db.appointments)) ==> NoDoubleBooking(db.appointments)
    ensures outcome == InUse <==> old(HasFutureAppointments(db.appointments, id, now))
    ensures outcome != Deleted ==> db.doctors == old(db.doctors)
    ensures outcome == NotFound <==>
      !old(HasFutureAppointments(db.appointments, id, now)) && forall i :: 0 <= i < |old(db.doctors)| ==> old(db.doctors)[i].id != id
    ensures outcome == Deleted ==>
      forall d :: d in db.doctors <==> d in old(db.doctors) && d.id != id
    ensures outcome == Deleted ==> |db.doctors| == |old(db.doctors)| - 1
  {
    var hasFutureAppointments := exists a :: a in db.appointments && a.doctorId == id && a.startTime > now && IsPending(a.status);
    if hasFutureAppointments {
      return InUse;
    }
    var k := FindIndex(db.doctors, DoctorKey, id);
    if k.None? {
      return NotFound;
    }
    RemoveKeyExactly(db.doctors, DoctorKey, k.value);
    db.doctors := RemoveAt(db.doctors, k.value);
    WhereKeepsUniqueKeys(db.appointments, AppointmentKey, (a: Appointment) => a.doctorId != id);
    if NoDoubleBooking(db.appointments) {
      WhereKeepsNoDoubleBooking(db.appointments, (a: Appointment) => a.doctorId != id);
    }
    db.appointments := SurvivingAppointments(db.appointments, id);
    return Deleted;
  }

  /** Marks appointment `id` as completed, with no ownership or overlap check. */
  method CompleteAppointment(db: ClinicDb, id: int) returns (found: bool)
    requires db.Valid()
    modifies db
    ensures db.Valid()
    ensures db.doctors == old(db.doctors) && db.specialties == old(db.specialties)
    ensures found <==> FindIndex(old(db.appointments), AppointmentKey, id).Some?
    ensures found ==>
      db.appointments == WithStatus(old(db.appointments), FindIndex(old(db.appointments), AppointmentKey, id).value, Some(Completed))
    ensures !found ==> db.appointments == old(db.appointments)
    ensures old(NoDoubleBooking(db.appointments)) ==> NoDoubleBooking(db.appointments)
  {
    var k := FindIndex(db.appointments, AppointmentKey, id);
    if k.None? {
      return false;
    }
    if NoDoubleBooking(db.appointments) {
      ClosingKeepsNoDoubleBooking(db.appointments, k.value, Some(Completed));
    }
    db.SetStatus(k.value, Completed);
    return true;
  }

  /** Marks appointment `id` as canceled, with no ownership check. */
  method CancelAppointment(db: ClinicDb, id: int) returns (found: bool)
    requires db.Valid()
    modifies db
    ensures db.Valid()
    ensures db.doctors == old(db.doctors) && db.specialties == old(db.specialties)
    ensures found <==> FindIndex(old(db.appointments), AppointmentKey, id).Some?
    ensures found ==>
      db.appointments == WithStatus(old(db.appointments), FindIndex(old(db.appointments), AppointmentKey, id).value, Some(Canceled))
    ensures !found ==> db.appointments == old(db.appointments)
    ensures old(NoDoubleBooking(db.appointments)) ==> NoDoubleBooking(db.appointments)
  {
    var k := FindIndex(db.appointments, AppointmentKey, id);
    if k.None? {
      return false;
    }
    if NoDoubleBooking(db.appointments) {
      ClosingKeepsNoDoubleBooking(db.appointments, k.value, Some(Canceled));
    }
    db.SetStatus(k.value, Canceled);
    return true;
  }

  /** Every appointment, latest start first. */
  method ViewAppointments(db: ClinicDb) returns (appointments: seq<Appointment>)
    ensures multiset(appointments) == multiset(db.appointments)
    ensures StartDescending(appointments)
  {
    appointments := OrderByStartDescending(db.appointments);
  }
}
