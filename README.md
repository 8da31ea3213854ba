# Barber-shop booking engine, modelled in Dafny

This project models the scheduling engine of a barber-shop management
system: the class `BookingManager` in `booking_manager.py`. The database
session becomes an in-memory store with four tables, each a sequence of
rows: employees, services, customers and appointments. Each insert appends
a row whose id is its autoincrement row number. Each update replaces a row
in place.

The engine does four things:

- **Availability.** An employee's working window is cut into 30-minute
  steps. A step is offered only if the employee works that weekday and no
  non-cancelled appointment of that employee and date overlaps the step
  under the half-open test.
- **Booking.** The customer is upserted by phone. The duration is resolved
  (the service's, or 30 minutes) and the end time wraps past midnight. A
  two-clause conflict query then either refuses the booking or appends a
  `scheduled` appointment.
- **Cancellation.** The appointment's status is set to cancelled in place.
- **Nearest-slot search.** The search scans today and the 29 following
  days, either for one employee or for a shop's active employees in stored
  order (`Booking.ShopScanPicksFirstInStoredOrder`).

The two appointment listings (all of a shop's or of an employee's
non-cancelled appointments, optionally for one date, ordered by date and
start time) are modelled too.

Times of day are minutes after midnight (`Store.Minute`, 0..1439). Dates
are proleptic day ordinals, as Python's `date.toordinal()` numbers them
(day 1 is Monday 1 January of year 1). Weekday abbreviations are the
English `%a` names. "Today" is a parameter of the search.

Files (one module each):

- `store.dfy`: the records, `Option`/`Result`, and the first-match lookup `.first()` / `.get()` stands for.
- `calendar.dfy`: the weekday of a date, Python's `str.split`, and the working-day test.
- `intervals.dfy`: the slot generator's half-open overlap test, the booking query's two-clause test, and the end-time arithmetic.
- `availability.dfy` (module `Slots`): the specification of the slot list and its properties.
- `listing.dfy`: filtering and the stable sort by (date, start time).
- `booking.dfy`: the class `BookingManager`, the specification functions of booking, cancellation and search, and the lemmas relating them.

### The booking conflict test

The booking query (`booking_manager.py:153-169`) does not use the same
overlap test as the slot generator (`booking_manager.py:112`). It flags an
existing appointment `[A.start, A.end)` against a request `[s, e)` when
either condition holds:

- `A.start <= s < A.end`
- `A.start < e <= A.end`

The model keeps this test exactly as written (`Intervals.BookingClash`,
`Booking.HasConflict`), and `BookAppointment` refuses a booking exactly
when it holds.

What is proved about it:

- **Sound.** For a request with start < end (a positive duration that
  stays within the day), every flagged appointment really overlaps the
  request (`Intervals.ClashIsOverlap`, `Booking.RejectedBookingOverlaps`).
  The condition is needed: a request that wraps past midnight
  (`Intervals.WrappedCandidateClashWithoutOverlap`) and a zero-minute
  request (`Intervals.EmptyCandidateClashWithoutOverlap`) can both be
  refused although they overlap nothing.
- **Not complete.** Among overlapping intervals, it misses exactly an
  existing appointment that lies strictly inside the request
  (`Intervals.ClashCharacterised`). For example, a 09:45 booking of
  45 minutes is accepted over an existing 10:00-10:15 appointment
  (`Intervals.ClashMissesNestedAppointment`,
  `Booking.NestedAppointmentNotDetected`).

No completeness claim is made.

## Model

| member | source | states |
|---|---|---|
| Store.IndexOf | booking_manager.py:62 | the first row satisfying the query's filter, or none exactly when no row satisfies it |
| Store.EmployeeIndex | booking_manager.py:74 | by-id lookup of an employee: the row found has that id; none exactly when no employee has it |
| Store.ServiceIndex | booking_manager.py:146 | by-id lookup of a service: the row found has that id; none exactly when no service has it |
| Store.AppointmentIndex | booking_manager.py:190 | by-id lookup of an appointment: the first row with that id; none exactly when no row has it |
| Store.CustomerIndex | booking_manager.py:62 | the first customer with the phone number; none exactly when no customer has it |
| Calendar.Weekday | booking_manager.py:79 | the weekday number of a date is below 7 |
| Calendar.WeekdayAbbrev | booking_manager.py:79 | the day abbreviation is one of the seven names Mon..Sun |
| Calendar.Split | booking_manager.py:80 | `split(",")` always yields at least one field |
| Calendar.SplitTokensHaveNoSeparator | booking_manager.py:80 | no field produced by the split contains the separator |
| Calendar.JoinSplit | booking_manager.py:80 | the split fields joined by the separator give back the original text |
| Calendar.SplitJoin | booking_manager.py:80 | splitting a comma-joined list of comma-free tokens gives exactly those tokens |
| Calendar.WeekdaySuccession | booking_manager.py:79 | ordinal 1 is a Monday, the day after any date has the next weekday, and abbreviations repeat every seven days |
| Calendar.AnchorMonday | booking_manager.py:79 | 2024-01-01 is reported as "Mon" |
| Calendar.NonWorkingDayExample | booking_manager.py:78-81 | an employee working "Tue,Wed" is off on a Monday and works on a Tuesday |
| Calendar.WorksOnExactToken | booking_manager.py:78-81 | the day check holds exactly when the date's abbreviation equals one of the tokens character for character |
| Intervals.EndTime | booking_manager.py:150-151 | the end is start + duration when that stays within the day, and is always congruent to it modulo 24 hours |
| Intervals.OverlapsSymmetric | booking_manager.py:112 | the half-open overlap test is symmetric |
| Intervals.TouchingDoesNotOverlap | booking_manager.py:112 | intervals that only share a boundary do not overlap |
| Intervals.ClashIsOverlap | booking_manager.py:159-164 | for a request with start < end, anything the booking test flags overlaps under the half-open test |
| Intervals.ClashCharacterised | booking_manager.py:159-164 | for start < end, the booking test flags exactly the overlapping appointments that do not lie strictly inside the request |
| Intervals.ClashMissesNestedAppointment | booking_manager.py:159-164 | 09:45-10:30 overlaps 10:00-10:15, but the booking test does not flag it |
| Intervals.WrappedCandidateClashWithoutOverlap | booking_manager.py:150-164 | a 23:45 request of 30 minutes ends at 00:15; the test flags 00:00-00:30 although the raw minute intervals do not overlap |
| Intervals.EmptyCandidateClashWithoutOverlap | booking_manager.py:143-164 | a zero-minute request at 10:00 ends at 10:00 and is flagged by 10:00-10:30, which it does not overlap |
| Slots.Blocking | booking_manager.py:88-94 | the appointments the query selects: exactly the non-cancelled ones of the employee and date |
| Slots.AlignedStep | booking_manager.py:96-123 | a step aligned to start + 30 is aligned to start |
| Slots.SlotsFromShape | booking_manager.py:96-123 | each generated slot is 30 minutes long, at start + 30k, ends by the window's end, is available, and starts strictly increase |
| Slots.SlotsFromMember | booking_manager.py:96-123 | a step is generated exactly when it is aligned, fits in the window and overlaps no blocking appointment |
| Slots.AvailabilityEmpty | booking_manager.py:74-81 | an unknown employee, a non-working weekday, or a window shorter than 30 minutes gives an empty list |
| Slots.AvailabilityShape | booking_manager.py:96-123 | every returned slot is Slot(t, t + 30, true) with t = start + 30k and t + 30 <= end, and starts strictly increase |
| Slots.AvailabilityOffersExactlyFreeSteps | booking_manager.py:88-121 | on a working day an aligned step in the window is returned exactly when every non-cancelled appointment of that employee and date ends by its start or starts at or after its end |
| Slots.AvailabilityOnlyFreeSteps | booking_manager.py:72-125 | every returned slot is on a working day, aligned, inside the window, and overlaps no blocking appointment |
| Listing.InsertByDateTime | booking_manager.py:207 | inserting into a date-and-time ordered list keeps it ordered and adds exactly that row |
| Listing.SortByDateTime | booking_manager.py:207 | the ordered result is a permutation of its input |
| Listing.Select | booking_manager.py:199-206 | the filter keeps only selected rows, keeps every selected row with its multiplicity, and adds nothing |
| Listing.Listed | booking_manager.py:197-219 | the listing is ordered by (date, start) and holds exactly the selected stored rows, each as often as stored |
| Booking.ServiceDuration | booking_manager.py:143-148 | 30 when the service id is falsy or unknown, otherwise the duration of a service with that id |
| Booking.CustomerUpsert | booking_manager.py:59-70 | a known phone returns a stored customer with that phone and inserts nothing; an unknown phone appends a new customer with the next id |
| Booking.CancelIn | booking_manager.py:188-195 | only rows with that id change, and only their status becomes cancelled; with unique ids exactly that row changes; an unknown id changes nothing |
| Booking.ActiveEmployees | booking_manager.py:241-244 | exactly the active employees of the shop |
| Booking.RegisterCustomerIdempotent | booking_manager.py:59-70 | a second registration with the same phone, under any name, returns the same customer and leaves the table as the first left it |
| Booking.CancelIdempotent | booking_manager.py:188-195 | cancelling twice equals cancelling once |
| Booking.CancellationKeepsSlots | booking_manager.py:188-195 | a cancellation never withdraws an offered slot |
| Booking.CancellationFreesSlot | booking_manager.py:88-121 | after a cancellation, a working-day aligned step is offered once no other non-cancelled appointment of that employee and date overlaps it |
| Booking.RejectedBookingOverlaps | booking_manager.py:153-169 | a refused booking (start < end) overlaps a non-cancelled appointment of that employee and date |
| Booking.NestedAppointmentNotDetected | booking_manager.py:153-169 | the conflict query lets a 09:45 45-minute booking through over an existing 10:00-10:15 appointment |
| Booking.BookedTimeNotOffered | booking_manager.py:88-121 | once a scheduled appointment is stored, no offered slot of that employee and date overlaps it |
| Booking.FirstEmployeeSlotFrom | booking_manager.py:228-237 | the employee search returns a date in the range, no earlier date has a slot, and the time is that date's first slot; none means no date in the range has a slot |
| Booking.FirstFreeStaff | booking_manager.py:246-254 | the first employee in order with a slot on the date: the name reported is theirs, no earlier employee has a slot, and the time is their first slot; none means nobody has one |
| Booking.FirstShopSlotFrom | booking_manager.py:228-254 | the shop search returns the earliest date on which some listed employee has a slot, and on it the first such employee; none means no such date |
| Booking.EmployeeSearchFindsFirstSlot | booking_manager.py:231-237 | the employee search reports that employee and the first slot of their availability on the reported date |
| Booking.ShopSearchFindsActiveEmployee | booking_manager.py:239-254 | on any date, the employee the shop scan picks (and so every shop search result) is an active employee of the shop reported by name, with the first slot of that employee's availability on the date |
| Booking.FirstFreeActiveInStoredOrder | booking_manager.py:241-254 | for any slot lookup, the shop scan picks the first active employee of the shop in stored position with a slot, reported by name with that slot's time, every earlier active employee of the shop having none |
| Booking.ShopScanFindsNoneExactly | booking_manager.py:241-254 | the shop scan finds nobody exactly when no active employee of the shop has a slot on the date |
| Booking.ShopScanPicksFirstInStoredOrder | booking_manager.py:239-254 | the employee the shop scan picks on a date is, by stored position, an active employee of the shop reported by name, and every earlier active employee of the shop has an empty availability that date |
| Booking.SlotOfferedFree | booking_manager.py:233-235 | the first slot of a non-empty availability list is offered and overlaps no blocking appointment |
| Booking.StepAvailable | booking_manager.py:104-114 | the inner appointment loop reports a step available exactly when no blocking appointment overlaps it |
| Booking.FreeSteps | booking_manager.py:96-123 | the slot loop returns exactly the generated free steps of the window |
| Booking.BookingManager.constructor | booking_manager.py:14-15 | an empty store with consistent row ids |
| Booking.BookingManager.AddEmployee | booking_manager.py:30-44 | appends one employee with the next id; nothing else changes |
| Booking.BookingManager.AddService | booking_manager.py:46-57 | appends one service with the next id; nothing else changes |
| Booking.BookingManager.RegisterCustomer | booking_manager.py:59-70 | the customer table and the returned row are those of the upsert by phone; other tables unchanged |
| Booking.BookingManager.GetEmployeeAvailability | booking_manager.py:72-125 | the returned list is the availability specification of that employee and date |
| Booking.BookingManager.BookAppointment | booking_manager.py:127-186 | the customer is upserted first; "Employee not found" exactly when no employee has the id; "Time slot not available" exactly when the two-clause query finds a conflict; no appointment is added on either error; on success exactly one scheduled appointment with the employee's shop, the customer's id and the computed end is appended |
| Booking.BookingManager.CancelAppointment | booking_manager.py:188-195 | returns true exactly when the id exists; only that appointment's status changes |
| Booking.BookingManager.ShopAppointments | booking_manager.py:197-207 | the shop's non-cancelled appointments (of the date, if given), each as often as stored, ordered by date and start |
| Booking.BookingManager.EmployeeAppointments | booking_manager.py:209-219 | the employee's non-cancelled appointments (of the date, if given), each as often as stored, ordered by date and start |
| Booking.BookingManager.GetNextAvailableSlot | booking_manager.py:221-256 | a truthy employee id selects the employee search over today..today+29; otherwise a truthy shop id selects the shop search over the shop's active employees; otherwise none |
| Booking.BookingManager.NextEmployeeSlot | booking_manager.py:228-237 | the day loop returns the employee search result |
| Booking.BookingManager.NextShopSlot | booking_manager.py:228-254 | the day loop returns the shop search result |
| Booking.BookingManager.FirstFreeEmployee | booking_manager.py:246-254 | the employee loop returns the first employee in order with a slot on the date |

## Left out

- `create_shop` (`booking_manager.py:17-28`): the shop table is never read by the modelled operations, so it is not modelled.
- Time parsing: `BookAppointment` takes its start time already as minutes. The `strptime` failure on a malformed time (raised after the customer upsert and the employee lookup) is not modelled.
- The locale of `strftime("%a")`: the weekday names are the English abbreviations of the C locale.
- Empty (`NULL`) columns: working days, start and end times and service durations are always present in the model.
- `Intervals.EndTime`: datetime arithmetic is modelled as minutes modulo one day. A negative duration follows the same modular rule; seconds are not modelled.
- Prices, shop opening hours and the free-text `notes`: the notes are stored but carry no meaning. `EmployeeSchedule` overrides are never consulted by the engine.
- `session.commit()`, transactions, and the race between the conflict query and the insert: there is no concurrency here.
- Booking an inactive employee: the source allows it and so does the model; nothing is proved about it.
- Booking.BookingManager.GetNextAvailableSlot: the source tests `employee_id` and `shop_id` on every day; the model tests them once and runs one of two day loops (`NextEmployeeSlot`, `NextShopSlot`). The behaviour is the same because the tests do not depend on the day.
- Booking.BookingManager.FirstFreeEmployee and Booking.StepAvailable / Booking.FreeSteps: inner loops kept as separate methods; in the source they are nested inside one function.
- Listing.SortByDateTime: the database's order among rows with equal date and start time is unspecified; the model keeps stored order (a stable sort). `.first()` and `.all()` are taken to return rows in stored order.
- Intervals.ClashIsOverlap: holds only for a request with start < end, that is a positive duration that stays within the day; `Intervals.WrappedCandidateClashWithoutOverlap` shows the wrapped case and `Intervals.EmptyCandidateClashWithoutOverlap` the zero-minute case.
- Wrapped appointments (end time before start time) are stored as computed, and both overlap tests treat them on raw minutes, as the source's `datetime.combine` on the same date does.
- `main.py` (HTTP routing), `ai_assistant.py` (intent parsing and replies), `models.py` (schema and session set-up) and `setup.py` (sample data) are not part of this model.
