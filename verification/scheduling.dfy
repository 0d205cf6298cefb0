/** The slot grid and the overlap rule shared by the slot generator and the
    booking arbiter, as functions, with the properties they guarantee. */
module Scheduling {
  import opened Models
  import opened Tables

  /** Every slot lasts 45 minutes; candidate starts are one hour apart, from
      09:00 while the start is before 17:00 (times of day are in minutes). */
  const SlotLength: int := 45
  const SlotStep: int := 60
  const OpeningTime: int := 9 * 60
  const ClosingTime: int := 17 * 60
  const SlotsPerDay: int := 8

  /** The half-open intervals [s1, e1) and [s2, e2) share at least one instant. */
  predicate Overlaps(s1: int, e1: int, s2: int, e2: int)
  {
    s1 < e2 && s2 < e1
  }

  /** Row `a` keeps the slot [start, start + 45) from being booked: it still
      holds its time and its interval meets the slot's. */
  predicate Blocks(a: Appointment, start: int)
  {
    IsPending(a.status) && Overlaps(start, start + SlotLength, a.startTime, a.endTime)
  }

  /** Some row of `doctorId` in `table` blocks the slot starting at `start`. */
  predicate SlotTaken(table: seq<Appointment>, doctorId: int, start: int)
  {
    exists a :: a in table && a.doctorId == doctorId && Blocks(a, start)
  }

  /** The slot starting at `start` is offered: it lies in the future and is not taken. */
  predicate Bookable(table: seq<Appointment>, doctorId: int, now: int, start: int)
  {
    start > now && !SlotTaken(table, doctorId, start)
  }

  /** Times of day the grid considers: whole hours from 09:00 to 16:00. */
  predicate IsCandidate(time: int)
  {
    OpeningTime <= time < ClosingTime && time % SlotStep == 0
  }

  /** The bookable times of day `day`, among time, time + 60, ... before closing. */
  function FreeTimesFrom(table: seq<Appointment>, doctorId: int, now: int, day: int, time: int): seq<int>
    decreases ClosingTime - time
  {
    if time >= ClosingTime then []
    else
      (if Bookable(table, doctorId, now, day * MinutesPerDay + time) then [time] else [])
      + FreeTimesFrom(table, doctorId, now, day, time + SlotStep)
  }

  /** The times of day offered on day `day`. */
  function FreeTimes(table: seq<Appointment>, doctorId: int, now: int, day: int): seq<int>
  {
    FreeTimesFrom(table, doctorId, now, day, OpeningTime)
  }

  /** The slot grid over the first `days` days from `today`: each day with at
      least one offered time, mapped to those times. */
  function Grid(table: seq<Appointment>, doctorId: int, now: int, today: int, days: int): map<int, seq<int>>
    decreases days
  {
    if days <= 0 then map[]
    else
      var earlier := Grid(table, doctorId, now, today, days - 1);
      var day := today + days - 1;
      var times := FreeTimes(table, doctorId, now, day);
      if times == [] then earlier else earlier[day := times]
  }

  /** Strictly increasing. */
  ghost predicate Ascending(s: seq<int>)
  {
    forall i, j :: 0 <= i < j < |s| ==> s[i] < s[j]
  }

  /** The table invariant: for each doctor, no two rows that still hold their
      time have overlapping intervals. */
  ghost predicate NoDoubleBooking(table: seq<Appointment>)
  {
    forall i, j ::
      0 <= i < |table| && 0 <= j < |table| && i != j &&
      table[i].doctorId == table[j].doctorId &&
      IsPending(table[i].status) && IsPending(table[j].status)
      ==> !Overlaps(table[i].startTime, table[i].endTime, table[j].startTime, table[j].endTime)
  }

  /** `table` with the status of row `k` replaced. */
  function WithStatus(table: seq<Appointment>, k: nat, status: Option<string>): (r: seq<Appointment>)
    requires k < |table|
    ensures |r| == |table|
    ensures r[k].status == status
    ensures r[k] == table[k].(status := status)
    ensures forall i :: 0 <= i < |r| && i != k ==> r[i] == table[i]
  {
    table[k := table[k].(status := status)]
  }

  /** FreeTimesFrom yields exactly the bookable times among time, time + 60, ...
      before closing. */
  lemma {:induction false} FreeTimesFromMembers(table: seq<Appointment>, doctorId: int, now: int, day: int, time: int)
    ensures forall t :: t in FreeTimesFrom(table, doctorId, now, day, time) <==>
      time <= t < ClosingTime && (t - time) % SlotStep == 0 && Bookable(table, doctorId, now, day * MinutesPerDay + t)
    decreases ClosingTime - time
  {
    if time < ClosingTime {
      var rest := FreeTimesFrom(table, doctorId, now, day, time + SlotStep);
      FreeTimesFromMembers(table, doctorId, now, day, time + SlotStep);
      var r := FreeTimesFrom(table, doctorId, now, day, time);
      forall t
        ensures t in r <==> time <= t < ClosingTime && (t - time) % SlotStep == 0 && Bookable(table, doctorId, now, day * MinutesPerDay + t)
      {
        if t != time {
          assert t in r <==> t in rest;
          if time <= t < time + SlotStep {
            assert (t - time) % SlotStep != 0;
          } else {
            assert (t - time) % SlotStep == (t - (time + SlotStep)) % SlotStep;
          }
        }
      }
    }
  }

  /** FreeTimesFrom yields its times in increasing order, at most one per hour
      left before closing. */
  lemma {:induction false} FreeTimesFromOrdered(table: seq<Appointment>, doctorId: int, now: int, day: int, time: int)
    ensures Ascending(FreeTimesFrom(table, doctorId, now, day, time))
    ensures time < ClosingTime ==> |FreeTimesFrom(table, doctorId, now, day, time)| * SlotStep < ClosingTime - time + SlotStep
    ensures time >= ClosingTime ==> FreeTimesFrom(table, doctorId, now, day, time) == []
    decreases ClosingTime - time
  {
    if time < ClosingTime {
      var rest := FreeTimesFrom(table, doctorId, now, day, time + SlotStep);
      FreeTimesFromOrdered(table, doctorId, now, day, time + SlotStep);
      FreeTimesFromMembers(table, doctorId, now, day, time + SlotStep);
      var r := FreeTimesFrom(table, doctorId, now, day, time);
      assert forall x :: x in rest ==> x > time;
      forall i, j | 0 <= i < j < |r|
        ensures r[i] < r[j]
      {
        if Bookable(table, doctorId, now, day * MinutesPerDay + time) {
          assert r == [time] + rest;
          assert r[j] == rest[j - 1] && rest[j - 1] in rest;
          if i > 0 {
            assert r[i] == rest[i - 1];
          }
        } else {
          assert r == rest;
        }
      }
    }
  }

  /** The times offered on a day are exactly the whole hours from 09:00 to 16:00
      whose slot is in the future and not taken; they are in increasing order and
      there are at most eight of them. */
  lemma FreeTimesMeaning(table: seq<Appointment>, doctorId: int, now: int, day: int)
    ensures forall t :: t in FreeTimes(table, doctorId, now, day) <==>
      IsCandidate(t) && Bookable(table, doctorId, now, day * MinutesPerDay + t)
    ensures Ascending(FreeTimes(table, doctorId, now, day))
    ensures |FreeTimes(table, doctorId, now, day)| <= SlotsPerDay
  {
    FreeTimesFromMembers(table, doctorId, now, day, OpeningTime);
    FreeTimesFromOrdered(table, doctorId, now, day, OpeningTime);
    forall t ensures (t - OpeningTime) % SlotStep == 0 <==> t % SlotStep == 0 {
      assert t - OpeningTime == t - 9 * SlotStep;
    }
  }

  /** The grid's days are exactly the days among the first `days` from `today`
      that offer at least one time, and each maps to the times it offers. */
  lemma {:induction false} GridMeaning(table: seq<Appointment>, doctorId: int, now: int, today: int, days: int)
    ensures forall d :: d in Grid(table, doctorId, now, today, days) <==>
      today <= d < today + days && FreeTimes(table, doctorId, now, d) != []
    ensures forall d :: d in Grid(table, doctorId, now, today, days) ==>
      Grid(table, doctorId, now, today, days)[d] == FreeTimes(table, doctorId, now, d)
    decreases days
  {
    if days > 0 {
      GridMeaning(table, doctorId, now, today, days - 1);
    }
  }

  /** Every offered slot starts after `now`, on one of the requested days, at a
      whole hour from 09:00 to 16:00, and no pending row of the doctor overlaps it. */
  lemma AvailableSlotsSound(table: seq<Appointment>, doctorId: int, now: int, today: int, days: int)
    ensures var g := Grid(table, doctorId, now, today, days);
      forall d, t :: d in g && t in g[d] ==>
        today <= d < today + days && IsCandidate(t) &&
        d * MinutesPerDay + t > now &&
        forall a :: a in table && a.doctorId == doctorId && IsPending(a.status) ==>
          !Overlaps(d * MinutesPerDay + t, d * MinutesPerDay + t + SlotLength, a.startTime, a.endTime)
  {
    GridMeaning(table, doctorId, now, today, days);
    forall d | today <= d < today + days {
      FreeTimesMeaning(table, doctorId, now, d);
    }
  }

  /** Every whole hour from 09:00 to 16:00 of a requested day whose slot is in
      the future and not taken is offered. */
  lemma AvailableSlotsComplete(table: seq<Appointment>, doctorId: int, now: int, today: int, days: int)
    ensures var g := Grid(table, doctorId, now, today, days);
      forall d, t ::
        today <= d < today + days && IsCandidate(t) && Bookable(table, doctorId, now, d * MinutesPerDay + t)
        ==> d in g && t in g[d]
  {
    GridMeaning(table, doctorId, now, today, days);
    forall d | today <= d < today + days {
      FreeTimesMeaning(table, doctorId, now, d);
    }
  }

  /** Each day of the grid holds between one and eight times, in increasing order. */
  lemma AvailableSlotsShape(table: seq<Appointment>, doctorId: int, now: int, today: int, days: int)
    ensures var g := Grid(table, doctorId, now, today, days);
      forall d :: d in g ==> 1 <= |g[d]| <= SlotsPerDay && Ascending(g[d])
  {
    GridMeaning(table, doctorId, now, today, days);
    forall d | today <= d < today + days {
      FreeTimesMeaning(table, doctorId, now, d);
    }
  }

  /** Two tables in which the same pending rows belong to `doctorId`. */
  ghost predicate SameBlockers(t1: seq<Appointment>, t2: seq<Appointment>, doctorId: int)
  {
    forall a: Appointment :: a.doctorId == doctorId && IsPending(a.status) ==> (a in t1 <==> a in t2)
  }

  lemma {:induction false} FreeTimesFromSameBlockers(t1: seq<Appointment>, t2: seq<Appointment>, doctorId: int, now: int, day: int, time: int)
    requires SameBlockers(t1, t2, doctorId)
    ensures FreeTimesFrom(t1, doctorId, now, day, time) == FreeTimesFrom(t2, doctorId, now, day, time)
    decreases ClosingTime - time
  {
    if time < ClosingTime {
      FreeTimesFromSameBlockers(t1, t2, doctorId, now, day, time + SlotStep);
      var start := day * MinutesPerDay + time;
      assert SlotTaken(t1, doctorId, start) == SlotTaken(t2, doctorId, start);
    }
  }

  /** The grid depends only on the doctor's pending rows: completed and canceled
      rows, and rows of other doctors, never remove a slot. */
  lemma {:induction false} GridDependsOnlyOnBlockers(t1: seq<Appointment>, t2: seq<Appointment>, doctorId: int, now: int, today: int, days: int)
    requires SameBlockers(t1, t2, doctorId)
    ensures Grid(t1, doctorId, now, today, days) == Grid(t2, doctorId, now, today, days)
    decreases days
  {
    if days > 0 {
      GridDependsOnlyOnBlockers(t1, t2, doctorId, now, today, days - 1);
      FreeTimesFromSameBlockers(t1, t2, doctorId, now, today + days - 1, OpeningTime);
    }
  }

  /** Adding a completed or canceled row, or a row of another doctor, leaves the grid as it was. */
  lemma NonBlockingRowKeepsGrid(table: seq<Appointment>, a: Appointment, doctorId: int, now: int, today: int, days: int)
    requires !IsPending(a.status) || a.doctorId != doctorId
    ensures Grid(table + [a], doctorId, now, today, days) == Grid(table, doctorId, now, today, days)
  {
    GridDependsOnlyOnBlockers(table + [a], table, doctorId, now, today, days);
  }

  /** Taking a row out of Pending can only add slots to the grid. */
  lemma ClosingRowOnlyFreesSlots(table: seq<Appointment>, k: nat, status: Option<string>, doctorId: int, now: int, today: int, days: int)
    requires k < |table|
    requires !IsPending(status)
    ensures var before := Grid(table, doctorId, now, today, days);
      var after := Grid(WithStatus(table, k, status), doctorId, now, today, days);
      forall d, t :: d in before && t in before[d] ==> d in after && t in after[d]
  {
    var table' := WithStatus(table, k, status);
    forall start | SlotTaken(table', doctorId, start)
      ensures SlotTaken(table, doctorId, start)
    {
      var a :| a in table' && a.doctorId == doctorId && Blocks(a, start);
      var i :| 0 <= i < |table'| && table'[i] == a;
      assert i != k;
      assert table[i] == a;
    }
    GridMeaning(table, doctorId, now, today, days);
    GridMeaning(table', doctorId, now, today, days);
    var before := Grid(table, doctorId, now, today, days);
    var after := Grid(table', doctorId, now, today, days);
    forall d, t | d in before && t in before[d]
      ensures d in after && t in after[d]
    {
      FreeTimesMeaning(table, doctorId, now, d);
      FreeTimesMeaning(table', doctorId, now, d);
      assert Bookable(table', doctorId, now, d * MinutesPerDay + t);
    }
  }

  /** Once a pending 45-minute row of the doctor starts at day `d`, time `t`,
      that time is no longer offered on that day. */
  lemma BookedSlotLeavesGrid(table: seq<Appointment>, row: Appointment, now: int, today: int, days: int, d: int, t: int)
    requires IsPending(row.status)
    requires row.startTime == d * MinutesPerDay + t
    requires row.endTime == row.startTime + SlotLength
    ensures var g := Grid(table + [row], row.doctorId, now, today, days);
      !(d in g && t in g[d])
  {
    var table' := table + [row];
    assert row in table' && Blocks(row, row.startTime);
    GridMeaning(table', row.doctorId, now, today, days);
    FreeTimesMeaning(table', row.doctorId, now, d);
  }

  /** After a row is booked, any later request for the same doctor whose slot
      overlaps it is seen as taken: of two overlapping requests handled one
      after the other, at most one is accepted. */
  lemma OverlappingRequestSeesBooking(table: seq<Appointment>, row: Appointment, start: int)
    requires IsPending(row.status)
    requires row.endTime == row.startTime + SlotLength
    requires Overlaps(start, start + SlotLength, row.startTime, row.endTime)
    ensures SlotTaken(table + [row], row.doctorId, start)
  {
    assert row in table + [row] && Blocks(row, start);
  }

  /** Appending a pending row whose slot is not taken keeps the invariant. */
  lemma BookingKeepsNoDoubleBooking(table: seq<Appointment>, row: Appointment)
    requires NoDoubleBooking(table)
    requires row.endTime == row.startTime + SlotLength
    requires !SlotTaken(table, row.doctorId, row.startTime)
    ensures NoDoubleBooking(table + [row])
  {
    var t := table + [row];
    forall i, j |
      0 <= i < |t| && 0 <= j < |t| && i != j &&
      t[i].doctorId == t[j].doctorId && IsPending(t[i].status) && IsPending(t[j].status)
      ensures !Overlaps(t[i].startTime, t[i].endTime, t[j].startTime, t[j].endTime)
    {
      if i == |table| {
        assert t[j] in table && !Blocks(t[j], row.startTime);
      } else if j == |table| {
        assert t[i] in table && !Blocks(t[i], row.startTime);
      }
    }
  }

  /** Rewriting one row's status to a non-pending value keeps the invariant. */
  lemma ClosingKeepsNoDoubleBooking(table: seq<Appointment>, k: nat, status: Option<string>)
    requires NoDoubleBooking(table)
    requires k < |table|
    requires !IsPending(status)
    ensures NoDoubleBooking(WithStatus(table, k, status))
  {
  }

  /** Dropping rows from the table, as a cascading delete does, keeps "no two
      pending rows of a doctor overlap". */
  lemma {:induction false} WhereKeepsNoDoubleBooking(table: seq<Appointment>, keep: Appointment -> bool)
    requires NoDoubleBooking(table)
    ensures NoDoubleBooking(Where(table, keep))
  {
    if |table| > 0 {
      var init := table[..|table| - 1];
      var last := table[|table| - 1];
      forall i, j | 0 <= i < |init| && 0 <= j < |init| && i != j &&
          init[i].doctorId == init[j].doctorId &&
          IsPending(init[i].status) && IsPending(init[j].status)
        ensures !Overlaps(init[i].startTime, init[i].endTime, init[j].startTime, init[j].endTime)
      {
        assert init[i] == table[i] && init[j] == table[j];
      }
      WhereKeepsNoDoubleBooking(init, keep);
      var rest := Where(init, keep);
      if keep(last) {
        forall x | x in rest && x.doctorId == last.doctorId && IsPending(x.status) && IsPending(last.status)
          ensures !Overlaps(x.startTime, x.endTime, last.startTime, last.endTime)
          ensures !Overlaps(last.startTime, last.endTime, x.startTime, x.endTime)
        {
          var k :| 0 <= k < |init| && init[k] == x;
          assert table[k] == x;
        }
        AppendKeepsNoDoubleBooking(rest, last);
      }
    }
  }

  /** A row that clashes with no pending row of its doctor may be appended
      without breaking "no two pending rows of a doctor overlap". */
  lemma AppendKeepsNoDoubleBooking(table: seq<Appointment>, row: Appointment)
    requires NoDoubleBooking(table)
    requires forall x | x in table && x.doctorId == row.doctorId && IsPending(x.status) && IsPending(row.status) ::
      && !Overlaps(x.startTime, x.endTime, row.startTime, row.endTime)
      && !Overlaps(row.startTime, row.endTime, x.startTime, x.endTime)
    ensures NoDoubleBooking(table + [row])
  {
    var r := table + [row];
    forall i, j | 0 <= i < |r| && 0 <= j < |r| && i != j &&
        r[i].doctorId == r[j].doctorId &&
        IsPending(r[i].status) && IsPending(r[j].status)
      ensures !Overlaps(r[i].startTime, r[i].endTime, r[j].startTime, r[j].endTime)
    {
      if i < |table| && j < |table| {
        assert r[i] == table[i] && r[j] == table[j];
      } else if i < |table| {
        assert r[i] == table[i] && r[i] in table && r[j] == row;
      } else {
        assert r[j] == table[j] && r[j] in table && r[i] == row;
      }
    }
  }

  /** A doctor with no appointments, asked at 08:00 of a day, is offered every
      hour from 09:00 to 16:00 of that day. */
  lemma EmptyDayOffersEveryHour(doctorId: int, day: int)
    ensures FreeTimes([], doctorId, day * MinutesPerDay + 8 * 60, day)
      == [540, 600, 660, 720, 780, 840, 900, 960]
  {
  }

  /** A pending 10:00-10:45 appointment removes 10:00 from its day and leaves
      09:00 and 11:00 offered (asked before 09:00, with no other appointment). */
  lemma PendingAppointmentBlocksItsHourOnly(row: Appointment, day: int, now: int)
    requires IsPending(row.status)
    requires row.startTime == day * MinutesPerDay + 10 * 60
    requires row.endTime == row.startTime + SlotLength
    requires now < day * MinutesPerDay + OpeningTime
    ensures var times := FreeTimes([row], row.doctorId, now, day);
      600 !in times && 540 in times && 660 in times
  {
    FreeTimesMeaning([row], row.doctorId, now, day);
    assert Blocks(row, day * MinutesPerDay + 600);
    assert !Blocks(row, day * MinutesPerDay + 540);
    assert !Blocks(row, day * MinutesPerDay + 660);
  }
}
