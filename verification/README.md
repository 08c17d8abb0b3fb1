# Patient booking controller — a Dafny model

This project models the booking rules of the `BookingController` of a small
clinic appointment API. It covers three actions:

- **next appointment** of a patient (`GET patient/{id}/next`);
- **add booking** (`POST`), with its past-date check and its doctor-busy check;
- **delete** of a patient's booking (`DELETE patient/{id}/{bookingId}`).

Each action is a pure function over a `State`. The state holds the stored
orders (bookings), patients with their clinic, the doctor ids, and the
"Starttime" entry of one client's session, which a successful delete writes and
the next-appointment query reads. All requests are taken to come from that one
client session. Times are integers (DateTime ticks). "Now" is a parameter.

Files:

- `results.dfy`: `Option` and `Result`.
- `booking_model.dfy`: the entities and the four error responses with their messages.
- `query.dfy`: the LINQ operators used: `Where` (order- and multiplicity-preserving), `Any`, and the index found by `FirstOrDefault`.
- `ordering.dfy`: `OrderByDescending` / `OrderBy` on StartTime as a stable sort.
  It also holds a reference selection, `FirstIndex`: the first element in
  storage order with the earliest or the latest start. Lemmas prove that the
  controller's sort-filter-sort-first pipeline selects exactly that element.
- `overlap.dfy`: the five-way busy check exactly as written. Its contract
  compares it with ordinary half-open interval overlap.
- `booking_controller.dfy`: the three actions, and lemmas relating them.
- `double_booking.dfy`: the double booking the busy check admits, and the corrected rule.

Ties between orders with equal StartTime are resolved by the two sorts of
`BookingController.cs` (line numbers below refer to that file). The in-memory
`OrderBy` at line 36 is LINQ to Objects and is stable. The `OrderByDescending`
at line 26 is part of the store query, so the store's
ORDER BY performs it, and the order among ties is unspecified. The model takes
that sort to be stable over storage order too, so the selected order is the
first one in storage order with the extreme StartTime.

The model follows the code where the route and the code's own comments point
to a different behaviour:

- Without a session time, the next appointment is the patient's latest order,
  even one in the past. The route name `next` suggests the soonest future
  booking, but the comment at line 25 says the filter on the current time is
  left out on purpose, and the query has no such filter.
- With a session time, the code falls back to the latest order when no order
  starts after that time (lines 33-36 only replace the list when one does).
- A new booking's id is `new Guid()` (line 56), the all-zero GUID, not a freshly
  generated identifier.

## Model

| member | source | states |
|---|---|---|
| Query.Where | PDR.PatientBookingApi/Controllers/BookingController.cs:26 | the filtered sequence holds exactly the input elements satisfying the predicate |
| Query.WhereCounts | PDR.PatientBookingApi/Controllers/BookingController.cs:26 | the filter keeps every occurrence of an element satisfying the predicate and none of any other: multiplicities are preserved |
| Query.WhereAppend | PDR.PatientBookingApi/Controllers/BookingController.cs:35-36 | the filter distributes over concatenation and keeps a single element exactly when it satisfies the predicate, so it keeps the input order of the kept elements |
| Query.Any | PDR.PatientBookingApi/Controllers/BookingController.cs:65-71 | true exactly when some element satisfies the predicate |
| Query.FindIndex | PDR.PatientBookingApi/Controllers/BookingController.cs:96 | None exactly when no element matches; otherwise the position of a match with no match before it |
| Ordering.SortBy | PDR.PatientBookingApi/Controllers/BookingController.cs:26 | the sort is a permutation of its input, sorted by StartTime in the given direction |
| Ordering.FirstIndex | PDR.PatientBookingApi/Controllers/BookingController.cs:39 | reference selection: a position whose order starts no later (or no earlier) than every order, with none before it starting equally early (late) |
| Ordering.HeadOfSort | PDR.PatientBookingApi/Controllers/BookingController.cs:39 | the first element of the stable sort is the reference selection of the input: the first order in storage order with the extreme StartTime |
| Ordering.BestOfLaterSnoc | PDR.PatientBookingApi/Controllers/BookingController.cs:26-39 | an order appended after orders that all start strictly earlier is the one selected as the latest |
| Ordering.WhereSortBy | PDR.PatientBookingApi/Controllers/BookingController.cs:35-36 | filtering the sorted list equals sorting the filtered list, so the filter after OrderByDescending keeps the storage order of ties |
| Ordering.SoonestOfSortDescending | PDR.PatientBookingApi/Controllers/BookingController.cs:36 | re-sorting ascending after the descending sort selects the first earliest order of the original sequence |
| Overlap.Conflicts | PDR.PatientBookingApi/Controllers/BookingController.cs:65-71 | for well-formed intervals: conflict iff the half-open intervals overlap, except the two missed cases (same start with a later existing end; earlier existing start with the same end); touching intervals never conflict |
| BookingController.GetPatientNextAppointment | PDR.PatientBookingApi/Controllers/BookingController.cs:22-48 | "No bookings found" exactly when the patient has no order; otherwise the result is one of that patient's stored orders |
| BookingController.NextAppointmentIsLatest | PDR.PatientBookingApi/Controllers/BookingController.cs:26-39 | with no session time, or none of the patient's orders after it: the first patient order with the latest StartTime, and no patient order starts later |
| BookingController.NextAppointmentIsSoonestAfterSession | PDR.PatientBookingApi/Controllers/BookingController.cs:31-39 | with session time t and some patient order after t: the first such order with the earliest StartTime; it starts after t and no patient order after t starts earlier |
| BookingController.AddBooking | PDR.PatientBookingApi/Controllers/BookingController.cs:50-90 | a start before now gives "Cannot book past date" and no change, whatever the conflicts; a start at or after now with a conflicting order of the doctor gives "Doctor is busy" and no change; otherwise exactly one order is appended. It has the requested times, patient and doctor, the zero GUID and the clinic's surgery type; nothing else changes |
| BookingController.DeletePatientAppointment | PDR.PatientBookingApi/Controllers/BookingController.cs:93-107 | "Booking does not exist" with state unchanged exactly when no order has that patient and id; otherwise the first such order in storage order is removed, the rest is kept in order, and its StartTime becomes the session time |
| BookingController.DisjointBookingAccepted | PDR.PatientBookingApi/Controllers/BookingController.cs:65-72 | a future booking that shares no time with any of the doctor's well-formed orders is accepted, including back-to-back bookings |
| BookingController.NewestBookingIsNext | PDR.PatientBookingApi/Controllers/BookingController.cs:74-87 | without a session time, a booking added after all of the patient's orders is the patient's next appointment |
| BookingController.NextAfterDeleteIsSoonestLater | PDR.PatientBookingApi/Controllers/BookingController.cs:101 | after a delete, the next appointment requested in the same session is the soonest remaining patient order starting after the deleted one, when such an order exists |
| DoubleBooking.AsWrittenAdmitsDoubleBooking | PDR.PatientBookingApi/Controllers/BookingController.cs:65-71 | a doctor holding [0, 60) is given [0, 30) as well: two overlapping orders; the corrected rule refuses it |
| DoubleBooking.AddBookingCorrected | PDR.PatientBookingApi/Controllers/BookingController.cs:50-90 | with overlap as the busy check: accepted iff not past and no order of the doctor overlaps; a store without overlapping orders of one doctor stays so |
| DoubleBooking.DeletePreservesNoDoubleBooking | PDR.PatientBookingApi/Controllers/BookingController.cs:103 | removing a booking keeps every doctor free of overlapping orders |

## Findings

| source | as written | input that shows it | evidently intended | confidence | as-written member | corrected member |
|---|---|---|---|---|---|---|
| PDR.PatientBookingApi/Controllers/BookingController.cs:65-71 | five disjuncts: existing start strictly inside, existing end strictly inside, strict containment either way, identical interval | existing order [0, 60) of doctor 7, new booking [0, 30) for doctor 7 at now = 0: no disjunct holds, so the booking is stored | reject every booking whose half-open interval overlaps one of the doctor's orders (touching intervals still allowed) | medium, not executed | DoubleBooking.AsWrittenAdmitsDoubleBooking | DoubleBooking.AddBookingCorrected |

`BookingController.AddBooking` keeps the check exactly as written, because it is
the behaviour of the controller. `DoubleBooking.AddBookingCorrected` is the
corrected rule. The no-overlap invariant is proved for it and for delete.
The two overlaps the check misses are named in `Overlap.MissedOverlap`.

## Left out

- BookingController.NextAppointmentIsLatest: the claim that the result is the *first* patient order in storage order with the latest StartTime assumes that the store's ORDER BY at line 26 is stable over storage order; the parts saying that no patient order starts later hold for any order of ties.
- BookingController.NextAppointmentIsSoonestAfterSession: the claim that the result is the *first* order after the session time with the earliest StartTime assumes the same stability of the line-26 sort; the parts saying that it starts after the session time and that none after it starts earlier hold for any order of ties.
- HTTP routing, status-code objects and response shapes. All four errors are 400 responses. The model returns the whole order where the response shows Id, DoctorId, StartTime and EndTime.
- Entity Framework. `SaveChanges` and its storage failures are not modelled. The store query at line 26 is taken to return the patient's orders sorted by the stable sort of `Ordering.SortBy` over storage order; the store's ORDER BY does not fix the order of ties. A doctor's `Orders` navigation collection is taken to be all stored orders with that DoctorId; whether it is actually loaded depends on context configuration that is not part of this model.
- Sessions: `HttpContext.Session` (lines 31, 33 and 101) is kept per client session cookie, and ASP.NET Core drops a session after its idle timeout. The model has a single session that never expires. A next-appointment request from another client, or after the timeout, sees no "Starttime" entry and gets the latest order (line 26); `BookingController.NextAfterDeleteIsSoonestLater` speaks only of a request in the same live session as the delete.
- BookingController.DeletePatientAppointment: the store query at line 96 has no ORDER BY, so which of several matching orders `FirstOrDefault` returns is unspecified; the model takes the first in storage order. Several orders can share a patient and id in the model only because every added order keeps the all-zero GUID (see the next line); if the store generates the key on insert or refuses a duplicate key, no two stored orders share an id, and a delete naming the all-zero GUID finds nothing.
- Key generation: the store may replace an all-zero GUID key on insert. That configuration is not part of this model, so the order keeps the id the controller assigns.
- `DateTime.Now` is a parameter. The session stores the start time with `ToString` and reads it back with `Parse`; the model keeps the exact integer and ignores the precision this loses.
- BookingController.AddBooking: an unknown patient or doctor id, or a patient without a clinic, is a null dereference in the source. The model makes known ids a precondition, but only when the start is not in the past, because the past-date check runs first.
- Concurrency: two simultaneous requests can both pass the busy check before either insert.
- The commented-out `UpdateLatestBooking` and the unused `MyOrderResult` class.
- Patient and doctor ids are C# `long` values. They are only compared, so their width is not modelled.
- The "latest appointment of a doctor" query and other controller drafts are not part of this model.
