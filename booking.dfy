/**
 * The booking manager over an in-memory store: the tables are sequences of
 * rows, ids are autoincrement row numbers, and each write of the original
 * session becomes an update of a field.  "Today" is a parameter.
 */
module Booking {
  import opened Store
  import opened Calendar
  import opened Intervals
  import opened Slots
  import opened Listing

  const DefaultDurationMinutes := 30
  const SearchHorizonDays := 30

  /** The two errors a booking raises. */
  datatype BookingError = EmployeeNotFound | SlotUnavailable

  /** The result of the nearest-slot search; the name is reported in shop scope only. */
  datatype NextSlot = NextSlot(employeeId: int, employeeName: Option<string>, date: int, time: int)

  /** Python truthiness of an optional id: None and 0 are false. */
  predicate Truthy(id: Option<int>)
  {
    id.Some? && id.value != 0
  }

  /** The booked length: the service's duration when a service id is given and found, else 30. */
  function ServiceDuration(services: seq<Service>, serviceId: Option<int>): (d: int)
    ensures !Truthy(serviceId) ==> d == DefaultDurationMinutes
    ensures Truthy(serviceId) && (forall s :: s in services ==> s.id != serviceId.value) ==>
              d == DefaultDurationMinutes
    ensures Truthy(serviceId) && (exists s :: s in services && s.id == serviceId.value) ==>
              exists s :: s in services && s.id == serviceId.value && d == s.durationMinutes
  {
    if Truthy(serviceId) then
      match ServiceIndex(services, serviceId.value)
      case Some(i) => services[i].durationMinutes
      case None => DefaultDurationMinutes
    else DefaultDurationMinutes
  }

  /** The booking query: a non-cancelled appointment of the employee and date that clashes. */
  predicate HasConflict(appointments: seq<Appointment>, employeeId: int, date: int, s: int, e: int)
  {
    exists a :: a in appointments && Blocks(a, employeeId, date) && BookingClash(s, e, a.startTime, a.endTime)
  }

  /** The customer table after `register_customer`, and the row it returns. */
  function CustomerUpsert(customers: seq<Customer>, name: string, phone: string): (r: (seq<Customer>, Customer))
    ensures (exists c :: c in customers && c.phone == phone) ==>
              r.0 == customers && r.1 in customers && r.1.phone == phone
    ensures (forall c :: c in customers ==> c.phone != phone) ==>
              r.1 == Customer(|customers| + 1, name, phone) && r.0 == customers + [r.1]
  {
    match CustomerIndex(customers, phone)
    case Some(i) => (customers, customers[i])
    case None =>
      var c := Customer(|customers| + 1, name, phone);
      (customers + [c], c)
  }

  /** The appointment table after `cancel_appointment`. */
  function CancelIn(appointments: seq<Appointment>, id: int): (r: seq<Appointment>)
    ensures |r| == |appointments|
    ensures forall i :: 0 <= i < |r| ==>
              r[i] == appointments[i] ||
              (appointments[i].id == id && r[i] == appointments[i].(status := Cancelled))
    ensures UniqueIds(appointments) ==>
              forall i :: 0 <= i < |r| ==>
                r[i] == if appointments[i].id == id then appointments[i].(status := Cancelled) else appointments[i]
    ensures (forall a :: a in appointments ==> a.id != id) ==> r == appointments
  {
    match AppointmentIndex(appointments, id)
    case None => appointments
    case Some(i) => appointments[i := appointments[i].(status := Cancelled)]
  }

  /** The active employees of a shop, in stored order. */
  function ActiveEmployees(employees: seq<Employee>, shopId: int): (r: seq<Employee>)
    ensures forall e :: e in r <==> e in employees && e.shopId == shopId && e.isActive
  {
    if |employees| == 0 then []
    else
      var rest := ActiveEmployees(employees[1..], shopId);
      assert forall e :: e in employees <==> e == employees[0] || e in employees[1..];
      if employees[0].shopId == shopId && employees[0].isActive then [employees[0]] + rest else rest
  }

  /** A second registration with the same phone returns the same row and inserts nothing. */
  lemma {:induction false} RegisterCustomerIdempotent(customers: seq<Customer>, name: string, otherName: string,
                                                      phone: string)
    ensures CustomerUpsert(CustomerUpsert(customers, name, phone).0, otherName, phone) ==
            CustomerUpsert(customers, name, phone)
  {
    var (cs, c) := CustomerUpsert(customers, name, phone);
    if CustomerIndex(customers, phone).None? {
      assert cs == customers + [c] && c.phone == phone;
      assert forall k :: 0 <= k < |customers| ==> cs[k].phone != phone by {
        forall k | 0 <= k < |customers| ensures cs[k].phone != phone {
          assert cs[k] == customers[k] && customers[k] in customers;
        }
      }
      assert cs[|customers|].phone == phone;
      assert CustomerIndex(cs, phone) == Some(|customers|);
    } else {
      assert CustomerIndex(cs, phone) == CustomerIndex(customers, phone);
    }
  }

  /** Cancelling twice is the same as cancelling once. */
  lemma CancelIdempotent(appointments: seq<Appointment>, id: int)
    ensures CancelIn(CancelIn(appointments, id), id) == CancelIn(appointments, id)
  {
    var once := CancelIn(appointments, id);
    match AppointmentIndex(appointments, id)
    case None =>
    case Some(i) =>
      assert forall j :: 0 <= j < |once| ==> once[j].id == appointments[j].id;
      assert AppointmentIndex(once, id) == Some(i);
  }

  /** Cancelling never withdraws an offered slot. */
  lemma CancellationKeepsSlots(employees: seq<Employee>, appointments: seq<Appointment>, id: int,
                               employeeId: int, date: int, s: Slot)
    requires s in Availability(employees, appointments, employeeId, date)
    ensures s in Availability(employees, CancelIn(appointments, id), employeeId, date)
  {
    var after := CancelIn(appointments, id);
    match EmployeeIndex(employees, employeeId)
    case Some(i) =>
      AvailabilityOnlyFreeSteps(employees, appointments, employeeId, date, i, s);
      var t := s.startTime;
      assert s == Slot(t, t + SlotMinutes, true);
      assert forall a :: a in after && Blocks(a, employeeId, date) ==> a in appointments by {
        forall a | a in after && Blocks(a, employeeId, date) ensures a in appointments {
          var k :| 0 <= k < |after| && after[k] == a;
          assert a == appointments[k];
        }
      }
      AvailabilityOffersExactlyFreeSteps(employees, after, employeeId, date, i, t);
  }

  /**
   * After cancelling an appointment, an aligned step of a working day is offered
   * as soon as no other non-cancelled appointment of that employee and date overlaps it.
   */
  lemma CancellationFreesSlot(employees: seq<Employee>, appointments: seq<Appointment>, id: int,
                              employeeId: int, date: int, i: nat, t: int)
    requires UniqueIds(appointments)
    requires EmployeeIndex(employees, employeeId) == Some(i)
    requires WorksOn(employees[i].workingDays, date)
    requires Aligned(t, employees[i].startTime) && t + SlotMinutes <= employees[i].endTime
    requires forall a :: a in appointments && a.id != id && Blocks(a, employeeId, date) ==>
               !Overlaps(t, t + SlotMinutes, a.startTime, a.endTime)
    ensures Slot(t, t + SlotMinutes, true) in Availability(employees, CancelIn(appointments, id), employeeId, date)
  {
    var after := CancelIn(appointments, id);
    AvailabilityOffersExactlyFreeSteps(employees, after, employeeId, date, i, t);
    forall a | a in after && Blocks(a, employeeId, date)
      ensures t + SlotMinutes <= a.startTime || t >= a.endTime
    {
      var k :| 0 <= k < |after| && after[k] == a;
      assert a == appointments[k];
    }
  }

  /** Every conflict the booking query reports for a non-wrapping request is a genuine overlap. */
  lemma RejectedBookingOverlaps(appointments: seq<Appointment>, employeeId: int, date: int, s: int, e: int)
    requires s < e
    requires HasConflict(appointments, employeeId, date, s, e)
    ensures exists a :: a in appointments && Blocks(a, employeeId, date) && Overlaps(s, e, a.startTime, a.endTime)
  {
    var a :| a in appointments && Blocks(a, employeeId, date) && BookingClash(s, e, a.startTime, a.endTime);
    ClashIsOverlap(s, e, a.startTime, a.endTime);
  }

  /** The query misses an appointment strictly inside the request: 09:45 + 45 minutes over 10:00-10:15. */
  lemma NestedAppointmentNotDetected(a: Appointment, employeeId: int, date: int)
    requires Blocks(a, employeeId, date) && a.startTime == 600 && a.endTime == 615
    ensures Overlaps(585, EndTime(585, 45), a.startTime, a.endTime)
    ensures !HasConflict([a], employeeId, date, 585, EndTime(585, 45))
  {
  }

  /** A scheduled appointment blocks every step it overlaps: no offered slot overlaps a new booking. */
  lemma BookedTimeNotOffered(employees: seq<Employee>, appointments: seq<Appointment>, b: Appointment, s: Slot)
    requires b.status == Scheduled
    requires s in Availability(employees, appointments + [b], b.employeeId, b.date)
    ensures !Overlaps(s.startTime, s.endTime, b.startTime, b.endTime)
  {
    var i := EmployeeIndex(employees, b.employeeId).value;
    AvailabilityOnlyFreeSteps(employees, appointments + [b], b.employeeId, b.date, i, s);
    assert b in appointments + [b];
  }

  /** The slot list of one employee as a function of the date. */
  function SlotsOn(employees: seq<Employee>, appointments: seq<Appointment>, employeeId: int): int -> seq<Slot>
  {
    d => Availability(employees, appointments, employeeId, d)
  }

  /** The slot list as a function of employee id and date. */
  function SlotsOf(employees: seq<Employee>, appointments: seq<Appointment>): (int, int) -> seq<Slot>
  {
    (id, d) => Availability(employees, appointments, id, d)
  }

  /** No date in [from, to) has a slot. */
  predicate NoSlotBetween(slotsOn: int -> seq<Slot>, from: int, to: int)
  {
    forall d :: from <= d < to ==> slotsOn(d) == []
  }

  /** None of the given employees has a slot on the date. */
  predicate NoneFree(slotsOf: (int, int) -> seq<Slot>, staff: seq<Employee>, date: int)
  {
    forall j :: 0 <= j < |staff| ==> slotsOf(staff[j].id, date) == []
  }

  /** None of the given employees has a slot on any date in [from, to). */
  predicate NoStaffSlotBetween(slotsOf: (int, int) -> seq<Slot>, staff: seq<Employee>, from: int, to: int)
  {
    forall d :: from <= d < to ==> NoneFree(slotsOf, staff, d)
  }

  /**
   * The employee search from `date` up to (not including) `last`: the first
   * slot of the earliest date that has one.
   */
  function FirstEmployeeSlotFrom(slotsOn: int -> seq<Slot>, employeeId: int, date: int, last: int)
    : (r: Option<NextSlot>)
    ensures r.Some? ==>
              date <= r.value.date < last &&
              r.value.employeeId == employeeId && r.value.employeeName == None &&
              NoSlotBetween(slotsOn, date, r.value.date) &&
              slotsOn(r.value.date) != [] && r.value.time == slotsOn(r.value.date)[0].startTime
    ensures r.None? ==> NoSlotBetween(slotsOn, date, last)
    decreases last - date
  {
    if date >= last then None
    else if slotsOn(date) != [] then Some(NextSlot(employeeId, None, date, slotsOn(date)[0].startTime))
    else FirstEmployeeSlotFrom(slotsOn, employeeId, date + 1, last)
  }

  /** The first employee of `staff`, in order, with a slot on the date, and that slot. */
  function FirstFreeStaff(slotsOf: (int, int) -> seq<Slot>, staff: seq<Employee>, date: int)
    : (r: Option<NextSlot>)
    ensures r.Some? ==>
              r.value.date == date &&
              (exists k :: 0 <= k < |staff| && staff[k].id == r.value.employeeId &&
                 r.value.employeeName == Some(staff[k].name) && NoneFree(slotsOf, staff[..k], date)) &&
              slotsOf(r.value.employeeId, date) != [] &&
              r.value.time == slotsOf(r.value.employeeId, date)[0].startTime
    ensures r.None? ==> NoneFree(slotsOf, staff, date)
  {
    if |staff| == 0 then None
    else if slotsOf(staff[0].id, date) != [] then
      assert staff[..0] == [];
      Some(NextSlot(staff[0].id, Some(staff[0].name), date, slotsOf(staff[0].id, date)[0].startTime))
    else
      var r := FirstFreeStaff(slotsOf, staff[1..], date);
      assert r.Some? ==> exists k :: 0 <= k < |staff| && staff[k].id == r.value.employeeId &&
                                     r.value.employeeName == Some(staff[k].name) &&
                                     NoneFree(slotsOf, staff[..k], date) by {
        if r.Some? {
          var k :| 0 <= k < |staff[1..]| && staff[1..][k].id == r.value.employeeId &&
                   r.value.employeeName == Some(staff[1..][k].name) &&
                   NoneFree(slotsOf, staff[1..][..k], date);
          assert staff[..k + 1] == [staff[0]] + staff[1..][..k];
          assert NoneFree(slotsOf, staff[..k + 1], date);
        }
      }
      assert r.None? ==> NoneFree(slotsOf, staff, date) by {
        if r.None? {
          assert staff == [staff[0]] + staff[1..];
        }
      }
      r
  }

  /**
   * The shop search from `date` up to (not including) `last`: on the earliest
   * date where one of `staff` has a slot, the first such employee in order.
   */
  function FirstShopSlotFrom(slotsOf: (int, int) -> seq<Slot>, staff: seq<Employee>, date: int, last: int)
    : (r: Option<NextSlot>)
    ensures r.Some? ==>
              date <= r.value.date < last &&
              NoStaffSlotBetween(slotsOf, staff, date, r.value.date) &&
              r == FirstFreeStaff(slotsOf, staff, r.value.date)
    ensures r.None? ==> NoStaffSlotBetween(slotsOf, staff, date, last)
    decreases last - date
  {
    if date >= last then None
    else
      match FirstFreeStaff(slotsOf, staff, date)
      case Some(found) => Some(found)
      case None => FirstShopSlotFrom(slotsOf, staff, date + 1, last)
  }

  /** The employee search reports the first slot offered to the employee on the reported date. */
  lemma EmployeeSearchFindsFirstSlot(employees: seq<Employee>, appointments: seq<Appointment>,
                                     employeeId: int, from: int, last: int)
    requires FirstEmployeeSlotFrom(SlotsOn(employees, appointments, employeeId), employeeId, from, last).Some?
    ensures var n := FirstEmployeeSlotFrom(SlotsOn(employees, appointments, employeeId), employeeId, from, last).value;
            n.employeeId == employeeId &&
            Availability(employees, appointments, employeeId, n.date) != [] &&
            n.time == Availability(employees, appointments, employeeId, n.date)[0].startTime
  {
    var slotsOn := SlotsOn(employees, appointments, employeeId);
    var n := FirstEmployeeSlotFrom(slotsOn, employeeId, from, last).value;
    assert slotsOn(n.date) == Availability(employees, appointments, employeeId, n.date);
  }

  /**
   * On any date, the employee the shop scan picks is an active employee of the
   * shop, reported by name, with the first slot of that employee's availability.
   * Every result of the shop search is such a pick (see `FirstShopSlotFrom`).
   */
  lemma ShopSearchFindsActiveEmployee(employees: seq<Employee>, appointments: seq<Appointment>,
                                      shopId: int, date: int)
    ensures var r := FirstFreeStaff(SlotsOf(employees, appointments), ActiveEmployees(employees, shopId), date);
            r.Some? ==>
              r.value.date == date &&
              (exists e :: e in employees && e.id == r.value.employeeId && e.shopId == shopId && e.isActive &&
                           r.value.employeeName == Some(e.name)) &&
              Availability(employees, appointments, r.value.employeeId, date) != [] &&
              r.value.time == Availability(employees, appointments, r.value.employeeId, date)[0].startTime
  {
    var staff := ActiveEmployees(employees, shopId);
    var slotsOf := SlotsOf(employees, appointments);
    var r := FirstFreeStaff(slotsOf, staff, date);
    if r.Some? {
      var n := r.value;
      var k :| 0 <= k < |staff| && staff[k].id == n.employeeId && n.employeeName == Some(staff[k].name) &&
               NoneFree(slotsOf, staff[..k], date);
      assert staff[k] in staff;
      assert slotsOf(n.employeeId, date) == Availability(employees, appointments, n.employeeId, date);
    }
  }

  /**
   * The shop scan over the active employees follows stored order: it picks the
   * first active employee of the shop, by position in `es`, with a slot on the date.
   */
  lemma {:induction false} FirstFreeActiveInStoredOrder(slotsOf: (int, int) -> seq<Slot>, es: seq<Employee>,
                                                        shopId: int, date: int)
    ensures var r := FirstFreeStaff(slotsOf, ActiveEmployees(es, shopId), date);
            r.Some? ==>
              exists k :: 0 <= k < |es| && es[k].id == r.value.employeeId && es[k].shopId == shopId &&
                es[k].isActive && r.value.employeeName == Some(es[k].name) &&
                slotsOf(es[k].id, date) != [] && r.value.time == slotsOf(es[k].id, date)[0].startTime &&
                forall j :: 0 <= j < k && es[j].shopId == shopId && es[j].isActive ==> slotsOf(es[j].id, date) == []
  {
    if |es| > 0 {
      var h := es[0];
      var tail := es[1..];
      FirstFreeActiveInStoredOrder(slotsOf, tail, shopId, date);
      var rest := ActiveEmployees(tail, shopId);
      var r := FirstFreeStaff(slotsOf, ActiveEmployees(es, shopId), date);
      var rr := FirstFreeStaff(slotsOf, rest, date);
      if h.shopId == shopId && h.isActive {
        assert ActiveEmployees(es, shopId) == [h] + rest;
        assert ([h] + rest)[1..] == rest;
      }
      if h.shopId != shopId || !h.isActive || slotsOf(h.id, date) == [] {
        assert r == rr;
        if r.Some? {
          var k :| 0 <= k < |tail| && tail[k].id == rr.value.employeeId && tail[k].shopId == shopId &&
                   tail[k].isActive && rr.value.employeeName == Some(tail[k].name) &&
                   slotsOf(tail[k].id, date) != [] && rr.value.time == slotsOf(tail[k].id, date)[0].startTime &&
                   forall j :: 0 <= j < k && tail[j].shopId == shopId && tail[j].isActive ==>
                     slotsOf(tail[j].id, date) == [];
          assert es[k + 1] == tail[k];
          forall j | 0 < j < k + 1 && es[j].shopId == shopId && es[j].isActive
            ensures slotsOf(es[j].id, date) == []
          {
            assert es[j] == tail[j - 1];
          }
        }
      } else {
        assert r == Some(NextSlot(h.id, Some(h.name), date, slotsOf(h.id, date)[0].startTime));
      }
    }
  }

  /** The shop scan finds nobody exactly when no active employee of the shop has a slot on the date. */
  lemma ShopScanFindsNoneExactly(slotsOf: (int, int) -> seq<Slot>, es: seq<Employee>, shopId: int, date: int)
    ensures FirstFreeStaff(slotsOf, ActiveEmployees(es, shopId), date).None? <==>
              forall j :: 0 <= j < |es| && es[j].shopId == shopId && es[j].isActive ==> slotsOf(es[j].id, date) == []
  {
    var staff := ActiveEmployees(es, shopId);
    var r := FirstFreeStaff(slotsOf, staff, date);
    if r.None? {
      forall j | 0 <= j < |es| && es[j].shopId == shopId && es[j].isActive
        ensures slotsOf(es[j].id, date) == []
      {
        assert es[j] in es;
        var i :| 0 <= i < |staff| && staff[i] == es[j];
      }
    } else {
      var k :| 0 <= k < |staff| && staff[k].id == r.value.employeeId && r.value.employeeName == Some(staff[k].name) &&
               NoneFree(slotsOf, staff[..k], date);
      assert staff[k] in staff;
      var j :| 0 <= j < |es| && es[j] == staff[k];
      assert es[j].shopId == shopId && es[j].isActive && slotsOf(es[j].id, date) != [];
    }
  }

  /**
   * The employee the shop scan picks on a date is, by stored position, the
   * first active employee of the shop whose availability that date is not
   * empty; it is reported by name with the first slot of that availability.
   */
  lemma ShopScanPicksFirstInStoredOrder(employees: seq<Employee>, appointments: seq<Appointment>,
                                        shopId: int, date: int)
    ensures var r := FirstFreeStaff(SlotsOf(employees, appointments), ActiveEmployees(employees, shopId), date);
            r.Some? ==>
              exists k :: 0 <= k < |employees| && employees[k].id == r.value.employeeId &&
                employees[k].shopId == shopId && employees[k].isActive &&
                r.value.employeeName == Some(employees[k].name) &&
                forall j :: 0 <= j < k && employees[j].shopId == shopId && employees[j].isActive ==>
                  Availability(employees, appointments, employees[j].id, date) == []
  {
    var slotsOf := SlotsOf(employees, appointments);
    FirstFreeActiveInStoredOrder(slotsOf, employees, shopId, date);
    var r := FirstFreeStaff(slotsOf, ActiveEmployees(employees, shopId), date);
    if r.Some? {
      var k :| 0 <= k < |employees| && employees[k].id == r.value.employeeId && employees[k].shopId == shopId &&
               employees[k].isActive && r.value.employeeName == Some(employees[k].name) &&
               slotsOf(employees[k].id, date) != [] && r.value.time == slotsOf(employees[k].id, date)[0].startTime &&
               forall j :: 0 <= j < k && employees[j].shopId == shopId && employees[j].isActive ==>
                 slotsOf(employees[j].id, date) == [];
      forall j | 0 <= j < k && employees[j].shopId == shopId && employees[j].isActive
        ensures Availability(employees, appointments, employees[j].id, date) == []
      {
        assert slotsOf(employees[j].id, date) == Availability(employees, appointments, employees[j].id, date);
      }
    }
  }

  /** The first slot of a non-empty list is offered and overlaps no blocking appointment. */
  lemma SlotOfferedFree(employees: seq<Employee>, appointments: seq<Appointment>, employeeId: int, date: int)
    requires Availability(employees, appointments, employeeId, date) != []
    ensures var t := Availability(employees, appointments, employeeId, date)[0].startTime;
            Slot(t, t + SlotMinutes, true) in Availability(employees, appointments, employeeId, date) &&
            forall a :: a in appointments && Blocks(a, employeeId, date) ==>
              !Overlaps(t, t + SlotMinutes, a.startTime, a.endTime)
  {
    var slots := Availability(employees, appointments, employeeId, date);
    var i := EmployeeIndex(employees, employeeId).value;
    AvailabilityOnlyFreeSteps(employees, appointments, employeeId, date, i, slots[0]);
  }

  /** The inner loop of the availability query: does any blocking appointment overlap [current, current + 30)? */
  method StepAvailable(busy: seq<Appointment>, current: int) returns (isAvailable: bool)
    ensures isAvailable <==> StepFree(busy, current)
  {
    var slotEnd := current + SlotMinutes;
    isAvailable := true;
    for j := 0 to |busy|
      invariant forall k :: 0 <= k < j ==> !Overlaps(current, slotEnd, busy[k].startTime, busy[k].endTime)
    {
      if !(slotEnd <= busy[j].startTime || current >= busy[j].endTime) {
        isAvailable := false;
        assert busy[j] in busy;
        return;
      }
    }
    forall a | a in busy ensures !Overlaps(current, slotEnd, a.startTime, a.endTime) {
      var k :| 0 <= k < |busy| && busy[k] == a;
    }
  }

  /** The slot loop of the availability query: 30-minute steps from `start` while one fits before `end`. */
  method FreeSteps(start: int, end: int, busy: seq<Appointment>) returns (slots: seq<Slot>)
    ensures slots == SlotsFrom(start, end, busy)
  {
    slots := [];
    var current := start;
    while current + SlotMinutes <= end
      invariant slots + SlotsFrom(current, end, busy) == SlotsFrom(start, end, busy)
      decreases end - current
    {
      ghost var done := slots;
      var slotEnd := current + SlotMinutes;
      var isAvailable := StepAvailable(busy, current);
      ghost var rest := SlotsFrom(slotEnd, end, busy);
      ghost var step: seq<Slot> := if isAvailable then [Slot(current, slotEnd, true)] else [];
      assert SlotsFrom(current, end, busy) == step + rest;
      if isAvailable {
        slots := slots + [Slot(current, slotEnd, true)];
      }
      assert slots + rest == done + (step + rest);
      current := slotEnd;
    }
  }

  class BookingManager {
    var employees: seq<Employee>
    var services: seq<Service>
    var customers: seq<Customer>
    var appointments: seq<Appointment>

    /** Each table's id column is its autoincrement row number (rows are never deleted). */
    ghost predicate Valid()
      reads this
      ensures Valid() ==> UniqueIds(appointments)
    {
      (forall i :: 0 <= i < |employees| ==> employees[i].id == i + 1) &&
      (forall i :: 0 <= i < |services| ==> services[i].id == i + 1) &&
      (forall i :: 0 <= i < |customers| ==> customers[i].id == i + 1) &&
      (forall i :: 0 <= i < |appointments| ==> appointments[i].id == i + 1)
    }

    constructor ()
      ensures Valid()
      ensures employees == [] && services == [] && customers == [] && appointments == []
    {
      employees, services, customers, appointments := [], [], [], [];
    }

    method AddEmployee(shopId: int, name: string, phone: string, workingDays: string,
                       startTime: Minute, endTime: Minute, isActive: bool) returns (employee: Employee)
      requires Valid()
      modifies this
      ensures Valid()
      ensures employee == Employee(|old(employees)| + 1, shopId, name, phone, isActive, workingDays, startTime, endTime)
      ensures employees == old(employees) + [employee]
      ensures services == old(services) && customers == old(customers) && appointments == old(appointments)
    {
      employee := Employee(|employees| + 1, shopId, name, phone, isActive, workingDays, startTime, endTime);
      employees := employees + [employee];
    }

    method AddService(shopId: int, name: string, durationMinutes: int) returns (service: Service)
      requires Valid()
      modifies this
      ensures Valid()
      ensures service == Service(|old(services)| + 1, shopId, name, durationMinutes)
      ensures services == old(services) + [service]
      ensures employees == old(employees) && customers == old(customers) && appointments == old(appointments)
    {
      service := Service(|services| + 1, shopId, name, durationMinutes);
      services := services + [service];
    }

    /** Returns the customer with this phone, unchanged, or inserts a new one. */
    method RegisterCustomer(name: string, phone: string) returns (customer: Customer)
      requires Valid()
      modifies this
      ensures Valid()
      ensures (customers, customer) == CustomerUpsert(old(customers), name, phone)
      ensures employees == old(employees) && services == old(services) && appointments == old(appointments)
    {
      var found := CustomerIndex(customers, phone);
      if found.Some? {
        customer := customers[found.value];
        return;
      }
      customer := Customer(|customers| + 1, name, phone);
      customers := customers + [customer];
    }

    /** The free 30-minute slots of an employee on a date. */
    method GetEmployeeAvailability(employeeId: int, date: int) returns (slots: seq<Slot>)
      ensures slots == Availability(employees, appointments, employeeId, date)
    {
      var found := EmployeeIndex(employees, employeeId);
      if found.None? {
        return [];
      }
      var employee := employees[found.value];
      if WeekdayAbbrev(date) !in Split(employee.workingDays, ',') {
        return [];
      }
      var busy := Blocking(appointments, employeeId, date);
      slots := FreeSteps(employee.startTime, employee.endTime, busy);
    }

    /**
     * Book an appointment.  The customer is upserted first, so it may be
     * created even when the booking is then refused.
     */
    method BookAppointment(employeeId: int, customerPhone: string, customerName: string,
                           appointmentDate: int, startTime: Minute, serviceId: Option<int>,
                           notes: string) returns (r: Result<Appointment, BookingError>)
      requires Valid()
      modifies this
      ensures Valid()
      ensures customers == CustomerUpsert(old(customers), customerName, customerPhone).0
      ensures employees == old(employees) && services == old(services)
      ensures r.Failure? ==> appointments == old(appointments)
      ensures r == Failure(EmployeeNotFound) <==> forall e :: e in employees ==> e.id != employeeId
      ensures r == Failure(SlotUnavailable) <==>
                (exists e :: e in employees && e.id == employeeId) &&
                HasConflict(old(appointments), employeeId, appointmentDate, startTime,
                            EndTime(startTime, ServiceDuration(services, serviceId)))
      ensures r.Success? ==>
                appointments == old(appointments) + [r.value] &&
                exists e :: e in employees && e.id == employeeId &&
                  r.value == Appointment(|old(appointments)| + 1, e.shopId, employeeId,
                                         CustomerUpsert(old(customers), customerName, customerPhone).1.id,
                                         serviceId, appointmentDate, startTime,
                                         EndTime(startTime, ServiceDuration(services, serviceId)),
                                         Scheduled, notes)
    {
      var customer := RegisterCustomer(customerName, customerPhone);
      var found := EmployeeIndex(employees, employeeId);
      if found.None? {
        return Failure(EmployeeNotFound);
      }
      var employee := employees[found.value];
      var duration := DefaultDurationMinutes;
      if Truthy(serviceId) {
        var service := ServiceIndex(services, serviceId.value);
        if service.Some? {
          duration := services[service.value].durationMinutes;
        }
      }
      var endTime := EndTime(startTime, duration);
      if HasConflict(appointments, employeeId, appointmentDate, startTime, endTime) {
        return Failure(SlotUnavailable);
      }
      var appointment := Appointment(|appointments| + 1, employee.shopId, employeeId, customer.id, serviceId,
                                     appointmentDate, startTime, endTime, Scheduled, notes);
      appointments := appointments + [appointment];
      r := Success(appointment);
    }

    /** Mark an appointment cancelled; false when no appointment has that id. */
    method CancelAppointment(appointmentId: int) returns (ok: bool)
      requires Valid()
      modifies this
      ensures Valid()
      ensures ok <==> exists a :: a in old(appointments) && a.id == appointmentId
      ensures appointments == CancelIn(old(appointments), appointmentId)
      ensures employees == old(employees) && services == old(services) && customers == old(customers)
    {
      var found := AppointmentIndex(appointments, appointmentId);
      if found.Some? {
        appointments := appointments[found.value := appointments[found.value].(status := Cancelled)];
        return true;
      }
      return false;
    }

    /** `get_shop_appointments`: the shop's non-cancelled appointments (of the date, if given), by date and start. */
    function ShopAppointments(shopId: int, date: Option<int>): (r: seq<Appointment>)
      reads this
      ensures SortedByDateTime(r)
      ensures forall a :: a in r <==>
                a in appointments && a.shopId == shopId && a.status != Cancelled &&
                (date.Some? ==> a.date == date.value)
      ensures forall a: Appointment :: a.shopId == shopId && a.status != Cancelled && (date.Some? ==> a.date == date.value) ==>
                multiset(r)[a] == multiset(appointments)[a]
    {
      Listed(appointments, true, shopId, date)
    }

    /** `get_employee_appointments`: the same listing keyed by employee. */
    function EmployeeAppointments(employeeId: int, date: Option<int>): (r: seq<Appointment>)
      reads this
      ensures SortedByDateTime(r)
      ensures forall a :: a in r <==>
                a in appointments && a.employeeId == employeeId && a.status != Cancelled &&
                (date.Some? ==> a.date == date.value)
      ensures forall a: Appointment :: a.employeeId == employeeId && a.status != Cancelled && (date.Some? ==> a.date == date.value) ==>
                multiset(r)[a] == multiset(appointments)[a]
    {
      Listed(appointments, false, employeeId, date)
    }

    /**
     * `get_next_available_slot`: a truthy employee id selects the employee
     * search, otherwise a truthy shop id selects the shop search, otherwise
     * nothing is found.
     */
    method GetNextAvailableSlot(today: int, employeeId: Option<int>, shopId: Option<int>)
      returns (r: Option<NextSlot>)
      ensures Truthy(employeeId) ==>
                r == FirstEmployeeSlotFrom(SlotsOn(employees, appointments, employeeId.value), employeeId.value,
                                           today, today + SearchHorizonDays)
      ensures !Truthy(employeeId) && Truthy(shopId) ==>
                r == FirstShopSlotFrom(SlotsOf(employees, appointments), ActiveEmployees(employees, shopId.value),
                                       today, today + SearchHorizonDays)
      ensures !Truthy(employeeId) && !Truthy(shopId) ==> r.None?
    {
      if Truthy(employeeId) {
        r := NextEmployeeSlot(today, employeeId.value);
      } else if Truthy(shopId) {
        r := NextShopSlot(today, shopId.value);
      } else {
        r := None;
      }
    }

    /** Employee scope: the first slot on the earliest of the 30 dates that has one. */
    method NextEmployeeSlot(today: int, employeeId: int) returns (r: Option<NextSlot>)
      ensures r == FirstEmployeeSlotFrom(SlotsOn(employees, appointments, employeeId), employeeId,
                                         today, today + SearchHorizonDays)
    {
      ghost var slotsOn := SlotsOn(employees, appointments, employeeId);
      ghost var last := today + SearchHorizonDays;
      for daysAhead := 0 to SearchHorizonDays
        invariant FirstEmployeeSlotFrom(slotsOn, employeeId, today, last) ==
                  FirstEmployeeSlotFrom(slotsOn, employeeId, today + daysAhead, last)
      {
        var checkDate := today + daysAhead;
        var slots := GetEmployeeAvailability(employeeId, checkDate);
        assert slots == slotsOn(checkDate);
        if slots != [] {
          r := Some(NextSlot(employeeId, None, checkDate, slots[0].startTime));
          assert r == FirstEmployeeSlotFrom(slotsOn, employeeId, checkDate, last);
          return;
        }
        assert FirstEmployeeSlotFrom(slotsOn, employeeId, checkDate, last) ==
               FirstEmployeeSlotFrom(slotsOn, employeeId, checkDate + 1, last);
      }
      return None;
    }

    /** Shop scope: on each date in turn, the active employees in stored order. */
    method NextShopSlot(today: int, shopId: int) returns (r: Option<NextSlot>)
      ensures r == FirstShopSlotFrom(SlotsOf(employees, appointments), ActiveEmployees(employees, shopId),
                                     today, today + SearchHorizonDays)
    {
      ghost var slotsOf := SlotsOf(employees, appointments);
      ghost var active := ActiveEmployees(employees, shopId);
      ghost var last := today + SearchHorizonDays;
      for daysAhead := 0 to SearchHorizonDays
        invariant FirstShopSlotFrom(slotsOf, active, today, last) ==
                  FirstShopSlotFrom(slotsOf, active, today + daysAhead, last)
      {
        var checkDate := today + daysAhead;
        var staff := ActiveEmployees(employees, shopId);
        var found := FirstFreeEmployee(staff, checkDate);
        if found.Some? {
          assert found == FirstShopSlotFrom(slotsOf, active, checkDate, last);
          return found;
        }
        assert FirstShopSlotFrom(slotsOf, active, checkDate, last) ==
               FirstShopSlotFrom(slotsOf, active, checkDate + 1, last);
      }
      return None;
    }

    /** The inner loop of the shop scope: the first of `staff`, in order, with a slot on the date. */
    method FirstFreeEmployee(staff: seq<Employee>, checkDate: int) returns (r: Option<NextSlot>)
      ensures r == FirstFreeStaff(SlotsOf(employees, appointments), staff, checkDate)
    {
      ghost var slotsOf := SlotsOf(employees, appointments);
      for k := 0 to |staff|
        invariant FirstFreeStaff(slotsOf, staff, checkDate) == FirstFreeStaff(slotsOf, staff[k..], checkDate)
      {
        var slots := GetEmployeeAvailability(staff[k].id, checkDate);
        assert slots == slotsOf(staff[k].id, checkDate);
        if slots != [] {
          return Some(NextSlot(staff[k].id, Some(staff[k].name), checkDate, slots[0].startTime));
        }
        assert staff[k..][1..] == staff[k + 1..];
      }
      assert staff[|staff|..] == [];
      return None;
    }
  }
}
