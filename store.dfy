/**
 * The records the scheduling engine reads and writes, as plain values.
 * Times of day are minutes after midnight; dates are proleptic day ordinals
 * (day 1 is the first of January of year 1, a Monday).
 */
module Store {

  datatype Option<+T> = None | Some(value: T)

  datatype Result<+R, +E> = Success(value: R) | Failure(error: E)

  /** A time of day, 00:00 .. 23:59, in minutes. */
  type Minute = m: int | 0 <= m < 1440

  const MinutesPerDay := 1440

  /** The four status values an appointment row takes. */
  datatype Status = Scheduled | Completed | Cancelled | NoShow

  datatype Employee = Employee(
    id: int,
    shopId: int,
    name: string,
    phone: string,
    isActive: bool,
    workingDays: string,   // comma-separated weekday abbreviations, e.g. "Mon,Tue"
    startTime: Minute,
    endTime: Minute)

  datatype Service = Service(id: int, shopId: int, name: string, durationMinutes: int)

  datatype Customer = Customer(id: int, name: string, phone: string)

  datatype Appointment = Appointment(
    id: int,
    shopId: int,
    employeeId: int,
    customerId: int,
    serviceId: Option<int>,
    date: int,
    startTime: Minute,
    endTime: Minute,
    status: Status,
    notes: string)

  /** The position of the first element satisfying p, as a query's `.first()` yields it. */
  function IndexOf<T>(xs: seq<T>, p: T -> bool): (r: Option<nat>)
    ensures r.Some? ==> r.value < |xs| && p(xs[r.value])
    ensures r.Some? ==> forall j :: 0 <= j < r.value ==> !p(xs[j])
    ensures r.None? <==> forall j :: 0 <= j < |xs| ==> !p(xs[j])
  {
    if |xs| == 0 then None
    else if p(xs[0]) then Some(0)
    else match IndexOf(xs[1..], p)
      case None => None
      case Some(k) => Some(k + 1)
  }

  /** Primary-key lookup of an employee row. */
  function EmployeeIndex(employees: seq<Employee>, id: int): (r: Option<nat>)
    ensures r.Some? ==> r.value < |employees| && employees[r.value].id == id
    ensures r.None? <==> forall e :: e in employees ==> e.id != id
  {
    IndexOf(employees, (e: Employee) => e.id == id)
  }

  /** Primary-key lookup of a service row. */
  function ServiceIndex(services: seq<Service>, id: int): (r: Option<nat>)
    ensures r.Some? ==> r.value < |services| && services[r.value].id == id
    ensures r.None? <==> forall s :: s in services ==> s.id != id
  {
    IndexOf(services, (s: Service) => s.id == id)
  }

  /** Primary-key lookup of an appointment row. */
  function AppointmentIndex(appointments: seq<Appointment>, id: int): (r: Option<nat>)
    ensures r.Some? ==> r.value < |appointments| && appointments[r.value].id == id
    ensures r.Some? ==> forall j :: 0 <= j < r.value ==> appointments[j].id != id
    ensures r.None? <==> forall a :: a in appointments ==> a.id != id
  {
    IndexOf(appointments, (a: Appointment) => a.id == id)
  }

  /** The first customer row with the given phone number. */
  function CustomerIndex(customers: seq<Customer>, phone: string): (r: Option<nat>)
    ensures r.Some? ==> r.value < |customers| && customers[r.value].phone == phone
    ensures r.Some? ==> forall j :: 0 <= j < r.value ==> customers[j].phone != phone
    ensures r.None? <==> forall c :: c in customers ==> c.phone != phone
  {
    IndexOf(customers, (c: Customer) => c.phone == phone)
  }

  /** No two appointment rows share an id (the primary key). */
  predicate UniqueIds(appointments: seq<Appointment>)
  {
    forall i, j :: 0 <= i < |appointments| && 0 <= j < |appointments| && i != j ==>
      appointments[i].id != appointments[j].id
  }
}
