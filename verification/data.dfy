/** The application's database context: the three tables the controllers read
    and change in place. */
module Data {
  import opened Models
  import opened Tables
  import opened Scheduling

  function AppointmentKey(a: Appointment): int { a.id }
  function DoctorKey(d: Doctor): int { d.id }
  function SpecialtyKey(s: Specialty): int { s.id }

  class ClinicDb {
    var appointments: seq<Appointment>
    var doctors: seq<Doctor>
    var specialties: seq<Specialty>

    /** Every table has a primary key. */
    ghost predicate Valid()
      reads this
    {
      && UniqueKeys(appointments, AppointmentKey)
      && UniqueKeys(doctors, DoctorKey)
      && UniqueKeys(specialties, SpecialtyKey)
    }

    constructor ()
      ensures Valid()
      ensures appointments == [] && doctors == [] && specialties == []
    {
      appointments := [];
      doctors := [];
      specialties := [];
    }

    /** Overwrites the status of the appointment at position `k`, and nothing else. */
    method SetStatus(k: nat, status: string)
      requires Valid()
      requires k < |appointments|
      modifies this
      ensures Valid()
      ensures appointments == WithStatus(old(appointments), k, Some(status))
      ensures doctors == old(doctors) && specialties == old(specialties)
    {
      ghost var before := appointments;
      appointments := WithStatus(appointments, k, Some(status));
      assert forall i :: 0 <= i < |before| ==> AppointmentKey(appointments[i]) == AppointmentKey(before[i]);
    }
  }
}
