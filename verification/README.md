# Clinic appointment booking — a Dafny model

This project models the booking core of a clinic web application in which
patients book 45-minute appointments with doctors and administrators manage
specialties, doctors and the appointment lifecycle. Two pieces make up the core:

- the **slot generator** (`GetAvailableTimeSlots`). For each of the next `days`
  days it walks the whole hours from 09:00 while the start is before 17:00. It
  keeps an hour when that start lies after the current instant and no pending
  appointment of the doctor overlaps `[start, start + 45)`. Days with no free
  hour are dropped.
- the **booking arbiter** (`Book`). It re-runs the same overlap test against the
  current table. It then either rejects without writing, or appends one pending
  row ending 45 minutes after its start.

Around them are the patient's own lists and cancellation, and the
administrator's guarded deletes, inserts and status rewrites.

Modules, one per source unit:

- `Models` (`models.dfy`): the appointment record and the StartTime validation
  window from 1 Jan 2020 to 1 Jan 2100, both ends inclusive. Also the doctor and
  specialty keys, and the rule that an absent status counts as `"Pending"`.
- `Tables` (`tables.dfy`): what the persistence layer does for the controllers.
  This covers lookup by primary key, removal, auto-increment keys, filtering and
  ordering by descending start.
- `Scheduling` (`scheduling.dfy`): the overlap predicate and the slot grid as
  functions. It also holds the per-doctor invariant "no two pending rows overlap"
  and the lemmas about all of these.
- `Data` (`data.dfy`): the database context, a class whose three tables are
  sequences the operations reassign.
- `AppointmentController` and `AdminController`: the operations as methods that
  change the context in place. Each is proved against the functions above.

Time is measured in whole minutes since 0001-01-01 00:00, the origin of .NET's
`DateTime`. A calendar date is a day number, and day `d` begins at minute
`d * 1440`. The current instant `now` and the current day `today` are
parameters. The signed-in caller's id is a parameter too. So is the framework's
verdict on annotations this model does not interpret (`fieldsValid`).

Behaviour of the code that the model keeps as written:

- `Book` checks neither that the start is in the future nor that it falls on the
  hourly grid. Any instant in the validation window that no pending row
  overlaps is accepted.
- Deleting a doctor also deletes the doctor's remaining appointments. The
  required `DoctorId` of an appointment (Models/Appointment.cs:15,19) makes a
  cascading relationship under the framework's conventions; the guard only
  ensures that none of those rows is a future pending one.
- `Book` does not check that the doctor exists. Only the booking page
  (`ShowBookingForm`) answers "not found" for an unknown doctor.
- A cancellation that finds no appointment and one that finds another
  patient's appointment give the same outcome.
- The model's status comparisons accept exactly `"Pending"` or an absent
  status (see "Left out" for the database's collation). `Cancel`, `CompleteAppointment` and `CancelAppointment` rewrite the status
  whatever it was before.

The check-then-insert in `Book` is a plain read followed by an insert
(Controllers/AppointmentController.cs:67-82) and is not atomic. The model
proves only the sequential guarantee: once a booking is stored, a later
overlapping request sees it (`Scheduling.OverlappingRequestSeesBooking`).
`GetAvailableTimeSlots` never looks the doctor up. Only the GET booking page
answers "not found"; the POST looks the doctor up only to show the page again.

## Model

| member | source | states |
|---|---|---|
| `AppointmentController.GetAvailableTimeSlots` | Controllers/AppointmentController.cs:144-180 | the nested loops build exactly the slot grid `Grid` of the doctor over `days` days from `today` |
| `AppointmentController.LoadDoctorRows` | Controllers/AppointmentController.cs:144-146 | the loaded list holds exactly the table's rows of that doctor |
| `AppointmentController.DaySlots` | Controllers/AppointmentController.cs:154-169 | the inner loop collects exactly the day's free times `FreeTimes`, in increasing order |
| `AppointmentController.ShowBookingForm` | Controllers/AppointmentController.cs:35-45 | "not found" exactly when no doctor has the key; otherwise the grid for the next 7 days |
| `AppointmentController.Book` | Controllers/AppointmentController.cs:50-95 | Unauthorized when the caller id is unreadable, Invalid when StartTime fails validation, SlotAlreadyBooked when a pending row of the doctor overlaps; in all three cases the table is unchanged. Otherwise exactly one row is appended under a fresh key with the caller as patient, `EndTime = StartTime + 45` and status "Pending", whatever was posted. Other tables are untouched and no-double-booking is preserved |
| `AppointmentController.MyBookings` | Controllers/AppointmentController.cs:104-118 | the result holds exactly the caller's rows, each as often as in the table, ordered by descending start |
| `AppointmentController.MySchedule` | Controllers/AppointmentController.cs:21-31 | the result holds exactly the caller's rows, each as often as in the table |
| `AppointmentController.Cancel` | Controllers/AppointmentController.cs:123-141 | cancels exactly when the appointment exists and belongs to the caller, and then only that row's status becomes "Canceled". A missing row and a row of another patient give the same outcome and leave the table unchanged. No-double-booking is preserved |
| `AdminController.AddSpecialty` | Controllers/AdminController.cs:32-40 | inserts exactly one specialty under a fresh key when the form is valid; otherwise nothing changes |
| `AdminController.DeleteSpecialty` | Controllers/AdminController.cs:56-72 | refused, with nothing removed, exactly when a doctor refers to the specialty. Otherwise exactly the row with that key is removed, or nothing happens when the key is missing |
| `AdminController.AddDoctor` | Controllers/AdminController.cs:84-96 | inserts exactly one doctor under a fresh key when the form is valid and its SpecialtyId lies in [1, int.MaxValue]; otherwise nothing changes |
| `AdminController.DeleteDoctor` | Controllers/AdminController.cs:112-132 | refused, with nothing removed, exactly when the doctor has an appointment starting after `now` whose status is pending. Otherwise exactly the row with that key is removed together with the doctor's appointments, or nothing happens when the key is missing; no-double-booking is preserved |
| `AdminController.SurvivingAppointments` | Models/Appointment.cs:15-19 | the appointments left after the cascade are exactly those of other doctors |
| `AdminController.CompleteAppointment` | Controllers/AdminController.cs:148-158 | sets only the found row's status to "Completed", with no ownership check; a missing key leaves the table unchanged; no-double-booking is preserved |
| `AdminController.CancelAppointment` | Controllers/AdminController.cs:162-172 | sets only the found row's status to "Canceled", with no ownership check; a missing key leaves the table unchanged; no-double-booking is preserved |
| `AdminController.ViewAppointments` | Controllers/AdminController.cs:135-144 | all rows, each as often as in the table, ordered by descending start |
| `Data.ClinicDb.SetStatus` | Controllers/AppointmentController.cs:130-132 | only the status of the one row changes; keys stay unique and the other tables are untouched |
| `Scheduling.FreeTimesFromMembers` | Controllers/AppointmentController.cs:158-171 | the inner loop keeps exactly the hours from its start time on, before 17:00, whose slot is in the future and not taken |
| `Scheduling.FreeTimesFromOrdered` | Controllers/AppointmentController.cs:158-171 | the inner loop's list is strictly increasing and holds at most one time per remaining hour |
| `Scheduling.FreeTimesMeaning` | Controllers/AppointmentController.cs:158-171 | a day's list is exactly the whole hours 09:00–16:00 whose slot is after `now` and overlaps no pending row of the doctor; it is strictly increasing and has at most 8 entries |
| `Scheduling.GridMeaning` | Controllers/AppointmentController.cs:153-177 | the grid's keys are exactly the days `today + i`, `0 <= i < days`, whose list is non-empty, and each key maps to that day's list |
| `Scheduling.AvailableSlotsSound` | Controllers/AppointmentController.cs:158-171 | every offered slot is on a requested day, at a whole hour from 09:00 to 16:00, strictly after `now`, and overlaps no pending row of the doctor |
| `Scheduling.AvailableSlotsComplete` | Controllers/AppointmentController.cs:153-172 | every whole hour 09:00–16:00 of a requested day that is in the future and not taken is offered |
| `Scheduling.AvailableSlotsShape` | Controllers/AppointmentController.cs:158-177 | every day of the grid holds 1 to 8 times in strictly increasing order |
| `Scheduling.FreeTimesFromSameBlockers` | Controllers/AppointmentController.cs:163-166 | a day's list depends only on the doctor's pending rows |
| `Scheduling.GridDependsOnlyOnBlockers` | Controllers/AppointmentController.cs:163-166 | two tables with the same pending rows for the doctor give the same grid, so completed and canceled rows never block a slot |
| `Scheduling.NonBlockingRowKeepsGrid` | Controllers/AppointmentController.cs:146-166 | adding a completed or canceled row, or a row of another doctor, leaves the grid unchanged |
| `Scheduling.ClosingRowOnlyFreesSlots` | Controllers/AdminController.cs:150-170 | moving one row out of Pending never removes an offered slot |
| `Scheduling.BookedSlotLeavesGrid` | Controllers/AppointmentController.cs:79-82 | once a pending 45-minute row starts at day `d`, time `t`, that time is no longer offered on `d` |
| `Scheduling.OverlappingRequestSeesBooking` | Controllers/AppointmentController.cs:67-71 | after a booking, every later request whose slot overlaps it finds the slot taken |
| `Scheduling.BookingKeepsNoDoubleBooking` | Controllers/AppointmentController.cs:65-82 | appending a 45-minute row whose slot is not taken preserves "no two pending rows of a doctor overlap" |
| `Scheduling.ClosingKeepsNoDoubleBooking` | Controllers/AdminController.cs:153-167 | rewriting one row's status to a non-pending value preserves "no two pending rows of a doctor overlap" |
| `Scheduling.WhereKeepsNoDoubleBooking` | Controllers/AdminController.cs:127-128 | dropping rows, as the cascade of a doctor delete does, preserves "no two pending rows of a doctor overlap" |
| `Scheduling.AppendKeepsNoDoubleBooking` | Controllers/AppointmentController.cs:79-82 | appending a row that overlaps no pending row of its doctor preserves "no two pending rows of a doctor overlap" |
| `Scheduling.EmptyDayOffersEveryHour` | Controllers/AppointmentController.cs:153-172 | a doctor with no appointments, asked at 08:00, is offered 09:00, 10:00, …, 16:00 that day |
| `Scheduling.PendingAppointmentBlocksItsHourOnly` | Controllers/AppointmentController.cs:158-171 | a pending 10:00–10:45 appointment removes 10:00 but leaves 09:00 and 11:00 |
| `Tables.FindIndex` | Controllers/AppointmentController.cs:125 | lookup by primary key: the position of the first row with the key, or None exactly when no row has it |
| `Tables.FreshKey` | Controllers/AppointmentController.cs:81 | the key given to an inserted row is positive and greater than every existing key |
| `Tables.AppendFreshKey` | Controllers/AdminController.cs:36 | inserting under a fresh key keeps the keys unique |
| `Tables.RemoveKeyExactly` | Controllers/AdminController.cs:65-70 | removing the found row removes exactly the rows with that key and keeps the keys unique |
| `Tables.WhereKeepsUniqueKeys` | Controllers/AdminController.cs:127-128 | dropping rows from a table keeps its keys unique |
| `Tables.Where` | Controllers/AppointmentController.cs:146-148 | the filter keeps each row that satisfies the condition as often as the table holds it, and no other row |
| `Tables.InsertByStartDescending` | Controllers/AppointmentController.cs:112 | inserting adds exactly that row: the result is the list plus the row, as a multiset |
| `Tables.InsertKeepsStartDescending` | Controllers/AppointmentController.cs:112 | inserting into a list ordered by descending start keeps it ordered |
| `Tables.PrependKeepsStartDescending` | Controllers/AppointmentController.cs:112 | a row starting no earlier than every row of an ordered list may go in front |
| `Tables.OrderByStartDescending` | Controllers/AppointmentController.cs:112 | the result is ordered by descending start and is a permutation of the input |
| `Models.StartTimeWindow` | Models/Appointment.cs:9-11 | StartTime is required, and the window [1 Jan 2020, 1 Jan 2100] is inclusive at both ends |
| `Models.LaterYearsRejected` | Models/Appointment.cs:10 | no instant of a year after 2100, such as 2200, passes validation |

## Left out

- Rendering, redirects, `ViewBag`/`TempData` messages and the re-display of the
  slot grid after a rejected booking are presentation; outcomes are returned as
  values instead.
- Concurrency: the overlap check and the insert in `Book` are not atomic in the
  source. The model runs each request as one sequential step and claims nothing
  about concurrent double-booking.
- The clock: `DateTime.Now` and `DateTime.Today` become the parameters `now` and
  `today`. The source reads `DateTime.Now` afresh for every candidate hour; the
  model reads it once. Time zones and daylight saving are not modelled.
- Sub-minute precision: instants are whole minutes. For comparisons against
  whole-minute slot starts, the current instant rounded down to the minute
  gives the same answers. A stored row whose posted StartTime carries seconds
  cannot be represented: a pending row from 08:15:30 to 09:00:30 blocks the
  09:00 slot, but rounded down to 08:15-09:00 it would not.
- `DateTime` range limits (year 9999) and the 32-bit width of the `int` keys
  are not modelled; integers are unbounded.
- Status strings are compared exactly. The source's database queries
  (`Book`, `DeleteDoctor`) run in MySQL, whose default collation compares
  case-insensitively. A legacy row with a status such as `"pending"` would block
  there but not in the slot generator. The model treats only `"Pending"` and
  an absent status as pending.
- Key generation: an inserted row gets one more than the largest existing key.
  MySQL's auto-increment never reuses the key of a deleted row; the model may
  reuse it. An `Id` posted with the form is ignored.
- Foreign keys: the database's referential constraints are not modelled. An
  appointment or doctor whose reference points nowhere is not rejected at
  insert. The delete of a doctor is modelled with the conventional cascade to
  its appointments; the database context's configuration, which could
  override that, is not part of this model.
- Model binding: a posted field other than StartTime that fails to bind would
  also make the form invalid; only StartTime's binding is modelled.
- `EditSpecialty` and `EditDoctor`: whole-row updates through the framework's
  change tracker, outside the booking core.
- Field rules of `Doctor`, `Specialty` and `User` (required names, lengths):
  these are interpreted by the framework and enter as the `fieldsValid`
  parameter. The one exception is `Doctor.SpecialtyId`'s range, which is
  modelled.
- Registration, login, the home pages and seed data are not part of this model.
