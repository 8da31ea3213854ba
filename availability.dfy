/**
 * What the availability query returns: the 30-minute steps of an employee's
 * working window that no non-cancelled appointment of that employee and date
 * overlaps (half-open test), in order, or nothing when the employee is unknown
 * or does not work that weekday.
 */
module Slots {
  import opened Store
  import opened Calendar
  import opened Intervals

  const SlotMinutes := 30

  /** One offered slot; `available` is always true in generated lists. */
  datatype Slot = Slot(startTime: int, endTime: int, available: bool)

  /** The appointments the availability query selects: this employee, this date, not cancelled. */
  predicate Blocks(a: Appointment, employeeId: int, date: int)
  {
    a.employeeId == employeeId && a.date == date && a.status != Cancelled
  }

  function Blocking(appointments: seq<Appointment>, employeeId: int, date: int): (busy: seq<Appointment>)
    ensures forall a :: a in busy <==> a in appointments && Blocks(a, employeeId, date)
  {
    if |appointments| == 0 then []
    else
      var rest := Blocking(appointments[1..], employeeId, date);
      assert forall a :: a in appointments <==> a == appointments[0] || a in appointments[1..];
      if Blocks(appointments[0], employeeId, date) then [appointments[0]] + rest else rest
  }

  /** The step [t, t + 30) overlaps none of the given appointments. */
  predicate StepFree(busy: seq<Appointment>, t: int)
  {
    forall a :: a in busy ==> !Overlaps(t, t + SlotMinutes, a.startTime, a.endTime)
  }

  /** t is `origin + 30 * k` for some k >= 0. */
  predicate Aligned(t: int, origin: int)
  {
    origin <= t && (t - origin) % SlotMinutes == 0
  }

  /** The free steps from `current` while a whole step still fits before `end`. */
  function SlotsFrom(current: int, end: int, busy: seq<Appointment>): seq<Slot>
    decreases end - current
  {
    if current + SlotMinutes > end then []
    else
      (if StepFree(busy, current) then [Slot(current, current + SlotMinutes, true)] else [])
      + SlotsFrom(current + SlotMinutes, end, busy)
  }

  /** The slot list for an employee id and a date, over the given tables. */
  function Availability(employees: seq<Employee>, appointments: seq<Appointment>,
                        employeeId: int, date: int): seq<Slot>
  {
    match EmployeeIndex(employees, employeeId)
    case None => []
    case Some(i) => DaySlots(employees[i], Blocking(appointments, employeeId, date), date)
  }

  /** The slot list of a known employee on a date, given the appointments that block. */
  function DaySlots(e: Employee, busy: seq<Appointment>, date: int): seq<Slot>
  {
    if !WorksOn(e.workingDays, date) then [] else SlotsFrom(e.startTime, e.endTime, busy)
  }

  lemma AlignedStep(t: int, origin: int)
    requires Aligned(t, origin + SlotMinutes)
    ensures Aligned(t, origin)
  {
    assert t - origin == (t - origin - SlotMinutes) + SlotMinutes;
  }

  /** Every generated slot is a 30-minute aligned step inside the window, and starts increase. */
  lemma {:induction false} SlotsFromShape(current: int, end: int, busy: seq<Appointment>)
    ensures forall i :: 0 <= i < |SlotsFrom(current, end, busy)| ==>
              var s := SlotsFrom(current, end, busy)[i];
              s.endTime == s.startTime + SlotMinutes && Aligned(s.startTime, current) &&
              s.endTime <= end && s.available
    ensures forall i, j :: 0 <= i < j < |SlotsFrom(current, end, busy)| ==>
              SlotsFrom(current, end, busy)[i].startTime < SlotsFrom(current, end, busy)[j].startTime
    decreases end - current
  {
    if current + SlotMinutes <= end {
      var rest := SlotsFrom(current + SlotMinutes, end, busy);
      SlotsFromShape(current + SlotMinutes, end, busy);
      forall i | 0 <= i < |rest| ensures Aligned(rest[i].startTime, current) {
        AlignedStep(rest[i].startTime, current);
      }
    }
  }

  /** A step is generated exactly when it is aligned, fits in the window and is free. */
  lemma {:induction false} SlotsFromMember(current: int, end: int, busy: seq<Appointment>, t: int)
    ensures Slot(t, t + SlotMinutes, true) in SlotsFrom(current, end, busy) <==>
              Aligned(t, current) && t + SlotMinutes <= end && StepFree(busy, t)
    decreases end - current
  {
    if current + SlotMinutes <= end {
      SlotsFromMember(current + SlotMinutes, end, busy, t);
      if t != current && Aligned(t, current) {
        assert Aligned(t, current + SlotMinutes) by {
          assert t - current - SlotMinutes == (t - current) - SlotMinutes;
        }
      }
      if Aligned(t, current + SlotMinutes) {
        AlignedStep(t, current);
      }
    }
  }

  /** An unknown employee, a day off, or a window shorter than one step gives no slots. */
  lemma AvailabilityEmpty(employees: seq<Employee>, appointments: seq<Appointment>, employeeId: int, date: int)
    ensures (forall e :: e in employees ==> e.id != employeeId) ==>
              Availability(employees, appointments, employeeId, date) == []
    ensures forall i :: EmployeeIndex(employees, employeeId) == Some(i) &&
                        (!WorksOn(employees[i].workingDays, date) ||
                         employees[i].endTime - employees[i].startTime < SlotMinutes) ==>
              Availability(employees, appointments, employeeId, date) == []
  {
  }

  /**
   * The shape of every returned list: 30-minute slots at `start + 30k`, ending
   * by the employee's end time, with strictly increasing starts.
   */
  lemma AvailabilityShape(employees: seq<Employee>, appointments: seq<Appointment>,
                          employeeId: int, date: int, i: nat)
    requires EmployeeIndex(employees, employeeId) == Some(i)
    ensures var slots := Availability(employees, appointments, employeeId, date);
            forall k :: 0 <= k < |slots| ==>
              slots[k] == Slot(slots[k].startTime, slots[k].startTime + SlotMinutes, true) &&
              Aligned(slots[k].startTime, employees[i].startTime) &&
              slots[k].endTime <= employees[i].endTime
    ensures var slots := Availability(employees, appointments, employeeId, date);
            forall k, m :: 0 <= k < m < |slots| ==> slots[k].startTime < slots[m].startTime
  {
    var e := employees[i];
    SlotsFromShape(e.startTime, e.endTime, Blocking(appointments, employeeId, date));
  }

  /**
   * On a working day, an aligned step of the window is offered exactly when
   * every non-cancelled appointment of that employee and date ends by its start
   * or starts at or after its end.  Cancelled appointments never block, and
   * a step that only touches an appointment is offered.
   */
  lemma AvailabilityOffersExactlyFreeSteps(employees: seq<Employee>, appointments: seq<Appointment>,
                                           employeeId: int, date: int, i: nat, t: int)
    requires EmployeeIndex(employees, employeeId) == Some(i)
    requires WorksOn(employees[i].workingDays, date)
    requires Aligned(t, employees[i].startTime) && t + SlotMinutes <= employees[i].endTime
    ensures Slot(t, t + SlotMinutes, true) in Availability(employees, appointments, employeeId, date) <==>
              forall a :: a in appointments && Blocks(a, employeeId, date) ==>
                t + SlotMinutes <= a.startTime || t >= a.endTime
  {
    var e := employees[i];
    var busy := Blocking(appointments, employeeId, date);
    SlotsFromMember(e.startTime, e.endTime, busy, t);
  }

  /** Every returned value is Slot(t, t + 30, true) for an aligned step that no blocking appointment overlaps. */
  lemma AvailabilityOnlyFreeSteps(employees: seq<Employee>, appointments: seq<Appointment>,
                                  employeeId: int, date: int, i: nat, s: Slot)
    requires EmployeeIndex(employees, employeeId) == Some(i)
    requires s in Availability(employees, appointments, employeeId, date)
    ensures WorksOn(employees[i].workingDays, date)
    ensures s == Slot(s.startTime, s.startTime + SlotMinutes, true)
    ensures Aligned(s.startTime, employees[i].startTime) && s.endTime <= employees[i].endTime
    ensures forall a :: a in appointments && Blocks(a, employeeId, date) ==>
              !Overlaps(s.startTime, s.endTime, a.startTime, a.endTime)
  {
    var e := employees[i];
    var busy := Blocking(appointments, employeeId, date);
    var slots := SlotsFrom(e.startTime, e.endTime, busy);
    assert s in slots;
    SlotsFromShape(e.startTime, e.endTime, busy);
    SlotsFromMember(e.startTime, e.endTime, busy, s.startTime);
  }
}
