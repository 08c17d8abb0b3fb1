/**
 * The three actions of BookingController as pure state transitions:
 * the next appointment of a patient, adding a booking, and deleting one.
 * "Now" is a parameter; the session's "Starttime" entry is part of the state.
 */
module BookingController {
  import opened Results
  import opened BookingModel
  import opened Query
  import opened Ordering
  import opened Overlap

  function OfPatient(patientId: int): Order -> bool {
    (o: Order) => o.patientId == patientId
  }

  function OfDoctor(doctorId: int): Order -> bool {
    (o: Order) => o.doctorId == doctorId
  }

  function StartsAfter(t: Time): Order -> bool {
    (o: Order) => o.startTime > t
  }

  /** The patient's orders, in storage order. */
  function PatientOrders(orders: seq<Order>, patientId: int): seq<Order> {
    Where(orders, OfPatient(patientId))
  }

  /** A doctor's `Orders` navigation collection. */
  function DoctorOrders(orders: seq<Order>, doctorId: int): seq<Order> {
    Where(orders, OfDoctor(doctorId))
  }

  /** The orders of `s` that start strictly after `t`. */
  function Later(t: Time, s: seq<Order>): seq<Order> {
    Where(s, StartsAfter(t))
  }

  // ---------------------------------------------------------------------------
  // GET patient/{id}/next
  // ---------------------------------------------------------------------------

  /**
   * The patient's orders sorted newest first; when the session holds a time
   * and some of those orders start after it, re-sorted oldest first among
   * just those; then the first one. Fails when the patient has no orders.
   */
  function GetPatientNextAppointment(st: State, patientId: int): (r: Result<Order, Error>)
    ensures r.Err? <==> forall o :: o in st.db.orders ==> o.patientId != patientId
    ensures r.Err? ==> r.error == NoBookingsFound
    ensures r.Ok? ==> r.value in st.db.orders && r.value.patientId == patientId
  {
    var bookings := SortBy(Descending, PatientOrders(st.db.orders, patientId));
    if |bookings| == 0 then
      assert |PatientOrders(st.db.orders, patientId)| == 0;
      Err(NoBookingsFound)
    else
      var candidates :=
        match st.sessionStart
        case Some(t) =>
          if |Later(t, bookings)| > 0 then SortBy(Ascending, Later(t, bookings)) else bookings
        case None => bookings;
      assert candidates[0] in multiset(candidates);
      assert candidates[0] in bookings;
      assert candidates[0] in multiset(bookings);
      assert candidates[0] in PatientOrders(st.db.orders, patientId);
      assert !(forall o :: o in st.db.orders ==> o.patientId != patientId) by {
        assert candidates[0] in st.db.orders && candidates[0].patientId == patientId;
      }
      Ok(candidates[0])
  }

  /**
   * Without a session time, or when none of the patient's orders starts
   * after it, the result is the patient's first order (in storage order)
   * with the latest start. The choice among equal starts rests on the store's
   * descending sort being stable, as `SortBy` models it; the bound in the
   * second ensures holds for any order of ties.
   */
  lemma NextAppointmentIsLatest(st: State, patientId: int)
    requires |PatientOrders(st.db.orders, patientId)| > 0
    requires st.sessionStart.None?
          || |Later(st.sessionStart.value, PatientOrders(st.db.orders, patientId))| == 0
    ensures GetPatientNextAppointment(st, patientId)
         == Ok(Best(Descending, PatientOrders(st.db.orders, patientId)))
    ensures var r := GetPatientNextAppointment(st, patientId);
            forall o :: o in st.db.orders && o.patientId == patientId ==> o.startTime <= r.value.startTime
  {
    var ps := PatientOrders(st.db.orders, patientId);
    HeadOfSort(Descending, ps);
    if st.sessionStart.Some? {
      WhereSortBy(Descending, StartsAfter(st.sessionStart.value), ps);
    }
    var b := Best(Descending, ps);
    forall o | o in st.db.orders && o.patientId == patientId ensures o.startTime <= b.startTime {
      assert o in ps;
      var j :| 0 <= j < |ps| && ps[j] == o;
    }
  }

  /**
   * With a session time `t` after which some of the patient's orders start,
   * the result is the first of those (in storage order) with the earliest
   * start: it starts after `t`, and no order of the patient starting after
   * `t` starts earlier. As above, the choice among equal starts rests on the
   * store's descending sort being stable.
   */
  lemma NextAppointmentIsSoonestAfterSession(st: State, patientId: int)
    requires st.sessionStart.Some?
    requires |Later(st.sessionStart.value, PatientOrders(st.db.orders, patientId))| > 0
    ensures GetPatientNextAppointment(st, patientId)
         == Ok(Best(Ascending, Later(st.sessionStart.value, PatientOrders(st.db.orders, patientId))))
    ensures var r := GetPatientNextAppointment(st, patientId);
            && r.value.startTime > st.sessionStart.value
            && forall o :: o in st.db.orders && o.patientId == patientId && o.startTime > st.sessionStart.value
                 ==> r.value.startTime <= o.startTime
  {
    var t := st.sessionStart.value;
    var later := Later(t, PatientOrders(st.db.orders, patientId));
    SessionBranchSelectsSoonest(st, patientId);
    var b := Best(Ascending, later);
    assert b in later;
    forall o | o in st.db.orders && o.patientId == patientId && o.startTime > t
      ensures b.startTime <= o.startTime
    {
      assert o in PatientOrders(st.db.orders, patientId);
      assert o in later;
      var j :| 0 <= j < |later| && later[j] == o;
    }
  }

  /** The session branch of GetPatientNextAppointment selects the first earliest later order. */
  lemma SessionBranchSelectsSoonest(st: State, patientId: int)
    requires st.sessionStart.Some?
    requires |Later(st.sessionStart.value, PatientOrders(st.db.orders, patientId))| > 0
    ensures GetPatientNextAppointment(st, patientId)
         == Ok(Best(Ascending, Later(st.sessionStart.value, PatientOrders(st.db.orders, patientId))))
  {
    var t := st.sessionStart.value;
    var ps := PatientOrders(st.db.orders, patientId);
    var later := Later(t, ps);
    var bookings := SortBy(Descending, ps);
    WhereSortBy(Descending, StartsAfter(t), ps);
    assert Later(t, bookings) == SortBy(Descending, later);
    assert |bookings| > 0;
    HeadOfSort(Ascending, SortBy(Descending, later));
    SoonestOfSortDescending(later);
  }

  // ---------------------------------------------------------------------------
  // POST booking
  // ---------------------------------------------------------------------------

  /** Some order of the doctor conflicts with [start, end) under the five-way check. */
  ghost predicate DoctorBusy(orders: seq<Order>, doctorId: int, start: Time, end: Time) {
    exists o :: o in orders && o.doctorId == doctorId && Conflicts(o, start, end)
  }

  /** The order AddBooking stores for `nb`. */
  function BookingFor(st: State, nb: NewBooking): Order
    requires nb.patientId in st.db.patients
  {
    Order(EmptyGuid, nb.startTime, nb.endTime, nb.patientId, nb.doctorId,
          st.db.patients[nb.patientId].clinic.surgeryType)
  }

  /**
   * Rejects a start before now, then a conflict with the doctor's orders;
   * otherwise appends one order with the zero GUID and the surgery type of
   * the patient's clinic. The patient and doctor lookups fail (a null
   * dereference) for unknown ids once the start is not in the past.
   */
  function AddBooking(st: State, nb: NewBooking, now: Time): (r: Step<()>)
    requires nb.startTime < now || (nb.patientId in st.db.patients && nb.doctorId in st.db.doctors)
    ensures nb.startTime < now ==> r == Step(st, Err(CannotBookPastDate))
    ensures nb.startTime >= now && DoctorBusy(st.db.orders, nb.doctorId, nb.startTime, nb.endTime)
            ==> r == Step(st, Err(DoctorIsBusy))
    ensures r.result.Ok? <==> nb.startTime >= now && !DoctorBusy(st.db.orders, nb.doctorId, nb.startTime, nb.endTime)
    ensures r.result.Ok? ==>
      var orders, orders' := st.db.orders, r.state.db.orders;
      && |orders'| == |orders| + 1
      && orders'[..|orders|] == orders
      && orders'[|orders|].id == EmptyGuid
      && orders'[|orders|].startTime == nb.startTime
      && orders'[|orders|].endTime == nb.endTime
      && orders'[|orders|].patientId == nb.patientId
      && orders'[|orders|].doctorId == nb.doctorId
      && orders'[|orders|].surgeryType == st.db.patients[nb.patientId].clinic.surgeryType
      && r.state.db.patients == st.db.patients
      && r.state.db.doctors == st.db.doctors
      && r.state.sessionStart == st.sessionStart
  {
    if nb.startTime < now then Step(st, Err(CannotBookPastDate))
    else if Any(DoctorOrders(st.db.orders, nb.doctorId), ConflictsWith(nb.startTime, nb.endTime)) then
      Step(st, Err(DoctorIsBusy))
    else
      var orders' := st.db.orders + [BookingFor(st, nb)];
      assert orders'[..|st.db.orders|] == st.db.orders;
      Step(st.(db := st.db.(orders := orders')), Ok(()))
  }

  // ---------------------------------------------------------------------------
  // DELETE patient/{id}/{bookingId}
  // ---------------------------------------------------------------------------

  function IsBooking(patientId: int, id: Guid): Order -> bool {
    (o: Order) => o.patientId == patientId && o.id == id
  }

  /**
   * Removes the first stored order (in storage order) of the patient with the
   * given id and records its start in the session; fails, changing nothing, when there is
   * no such order.
   */
  function DeletePatientAppointment(st: State, patientId: int, id: Guid): (r: Step<()>)
    ensures r.result.Err? <==> forall o :: o in st.db.orders ==> !(o.patientId == patientId && o.id == id)
    ensures r.result.Err? ==> r == Step(st, Err(BookingDoesNotExist))
    ensures r.result.Ok? ==>
      exists i :: && 0 <= i < |st.db.orders|
                  && st.db.orders[i].patientId == patientId && st.db.orders[i].id == id
                  && (forall j :: 0 <= j < i ==> !(st.db.orders[j].patientId == patientId && st.db.orders[j].id == id))
                  && r.state == State(st.db.(orders := st.db.orders[..i] + st.db.orders[i + 1..]),
                                      Some(st.db.orders[i].startTime))
  {
    match FindIndex(st.db.orders, IsBooking(patientId, id))
    case None =>
      assert forall o :: o in st.db.orders ==> !(o.patientId == patientId && o.id == id) by {
        forall o | o in st.db.orders ensures !(o.patientId == patientId && o.id == id) {
          var k :| 0 <= k < |st.db.orders| && st.db.orders[k] == o;
          assert !IsBooking(patientId, id)(st.db.orders[k]);
        }
      }
      Step(st, Err(BookingDoesNotExist))
    case Some(i) =>
      var booking := st.db.orders[i];
      assert booking in st.db.orders;
      Step(State(st.db.(orders := st.db.orders[..i] + st.db.orders[i + 1..]), Some(booking.startTime)), Ok(()))
  }

  // ---------------------------------------------------------------------------
  // Properties across actions
  // ---------------------------------------------------------------------------

  /**
   * AddBooking accepts a future candidate that shares no time with any of the
   * doctor's well-formed orders; in particular one that starts exactly when
   * an order ends, or ends exactly when one starts.
   */
  lemma DisjointBookingAccepted(st: State, nb: NewBooking, now: Time)
    requires nb.patientId in st.db.patients && nb.doctorId in st.db.doctors
    requires nb.startTime >= now && WellFormed(nb.startTime, nb.endTime)
    requires forall o :: o in st.db.orders && o.doctorId == nb.doctorId ==>
      WellFormed(o.startTime, o.endTime) && (o.endTime <= nb.startTime || o.startTime >= nb.endTime)
    ensures AddBooking(st, nb, now).result.Ok?
  {
  }

  /**
   * Round trip: without a session time, a booking that starts after every
   * other order of its patient is that patient's next appointment.
   */
  lemma NewestBookingIsNext(st: State, nb: NewBooking, now: Time)
    requires nb.patientId in st.db.patients && nb.doctorId in st.db.doctors
    requires st.sessionStart.None?
    requires AddBooking(st, nb, now).result.Ok?
    requires forall o :: o in st.db.orders && o.patientId == nb.patientId ==> o.startTime < nb.startTime
    ensures GetPatientNextAppointment(AddBooking(st, nb, now).state, nb.patientId) == Ok(BookingFor(st, nb))
  {
    var st' := AddBooking(st, nb, now).state;
    var orders := st.db.orders;
    var n := BookingFor(st, nb);
    assert st'.db.orders == orders + [n] by {
      assert st'.db.orders == st'.db.orders[..|orders|] + [st'.db.orders[|orders|]];
    }
    var ps := PatientOrders(orders, nb.patientId);
    WhereAppend(orders, [n], OfPatient(nb.patientId));
    assert PatientOrders(st'.db.orders, nb.patientId) == ps + [n];
    NextAppointmentIsLatest(st', nb.patientId);
    BestOfLaterSnoc(ps, n);
  }

  /**
   * After a delete, the next appointment requested in the same session is the
   * patient's soonest remaining order starting after the deleted one, when
   * there is such an order.
   */
  lemma NextAfterDeleteIsSoonestLater(st: State, patientId: int, id: Guid)
    requires DeletePatientAppointment(st, patientId, id).result.Ok?
    ensures var st' := DeletePatientAppointment(st, patientId, id).state;
            && st'.sessionStart.Some?
            && var t := st'.sessionStart.value;
               var r := GetPatientNextAppointment(st', patientId);
               (exists o :: o in st'.db.orders && o.patientId == patientId && o.startTime > t) ==>
                 && r.Ok?
                 && r.value.startTime > t
                 && forall o :: o in st'.db.orders && o.patientId == patientId && o.startTime > t
                      ==> r.value.startTime <= o.startTime
  {
    var st' := DeletePatientAppointment(st, patientId, id).state;
    var t := st'.sessionStart.value;
    if o :| o in st'.db.orders && o.patientId == patientId && o.startTime > t {
      assert o in PatientOrders(st'.db.orders, patientId);
      assert o in Later(t, PatientOrders(st'.db.orders, patientId));
      NextAppointmentIsSoonestAfterSession(st', patientId);
    }
  }
}
