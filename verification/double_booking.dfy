/**
 * The five-way check of AddBooking lets a doctor be double-booked. This module
 * exhibits that, and proves that the half-open overlap check it evidently
 * stands for keeps every doctor free of overlapping orders.
 */
module DoubleBooking {
  import opened Results
  import opened BookingModel
  import opened Query
  import opened Overlap
  import opened BookingController

  /** No two distinct stored orders of one doctor share a point in time. */
  ghost predicate NoDoubleBooking(orders: seq<Order>) {
    forall i, j ::
      0 <= i < |orders| && 0 <= j < |orders| && i != j && orders[i].doctorId == orders[j].doctorId
      ==> !Overlaps(orders[i].startTime, orders[i].endTime, orders[j].startTime, orders[j].endTime)
  }

  /** AddBooking with its busy check replaced by half-open interval overlap. */
  function AddBookingCorrected(st: State, nb: NewBooking, now: Time): (r: Step<()>)
    requires nb.startTime < now || (nb.patientId in st.db.patients && nb.doctorId in st.db.doctors)
    ensures r.result.Ok? <==>
      && nb.startTime >= now
      && forall o :: o in st.db.orders && o.doctorId == nb.doctorId
           ==> !Overlaps(o.startTime, o.endTime, nb.startTime, nb.endTime)
    ensures r.result.Err? ==> r.state == st
    ensures r.result.Ok? ==> r.state == st.(db := st.db.(orders := st.db.orders + [BookingFor(st, nb)]))
    ensures NoDoubleBooking(st.db.orders) ==> NoDoubleBooking(r.state.db.orders)
  {
    if nb.startTime < now then Step(st, Err(CannotBookPastDate))
    else if Any(DoctorOrders(st.db.orders, nb.doctorId), OverlapsWith(nb.startTime, nb.endTime)) then
      Step(st, Err(DoctorIsBusy))
    else
      var orders := st.db.orders;
      var orders' := orders + [BookingFor(st, nb)];
      assert NoDoubleBooking(orders) ==> NoDoubleBooking(orders') by {
        if NoDoubleBooking(orders) {
          forall i, j | 0 <= i < |orders'| && 0 <= j < |orders'| && i != j && orders'[i].doctorId == orders'[j].doctorId
            ensures !Overlaps(orders'[i].startTime, orders'[i].endTime, orders'[j].startTime, orders'[j].endTime)
          {
            if i == |orders| {
              assert orders'[j] in DoctorOrders(orders, nb.doctorId);
            } else if j == |orders| {
              assert orders'[i] in DoctorOrders(orders, nb.doctorId);
            }
          }
        }
      }
      Step(st.(db := st.db.(orders := orders')), Ok(()))
  }

  /**
   * A doctor with the order [0, 60) accepts, as written, the candidate
   * [0, 30): same start, existing order ends later. The resulting store holds
   * two overlapping orders of that doctor; the corrected rule refuses it.
   */
  lemma AsWrittenAdmitsDoubleBooking()
    ensures var st := State(Db([Order(EmptyGuid, 0, 60, 1, 7, 3)], map[1 := Patient(Clinic(2, 3))], {7}), None);
            var nb := NewBooking(EmptyGuid, 0, 30, 1, 7);
            && NoDoubleBooking(st.db.orders)
            && AddBooking(st, nb, 0).result.Ok?
            && !NoDoubleBooking(AddBooking(st, nb, 0).state.db.orders)
            && AddBookingCorrected(st, nb, 0).result == Err(DoctorIsBusy)
  {
    var existing := Order(EmptyGuid, 0, 60, 1, 7, 3);
    var st := State(Db([existing], map[1 := Patient(Clinic(2, 3))], {7}), None);
    var nb := NewBooking(EmptyGuid, 0, 30, 1, 7);
    assert !DoctorBusy(st.db.orders, 7, 0, 30);
    var orders' := AddBooking(st, nb, 0).state.db.orders;
    assert orders'[0] == existing && orders'[1].startTime == 0 && orders'[1].endTime == 30;
    assert !AddBookingCorrected(st, nb, 0).result.Ok? by {
      assert existing in st.db.orders;
    }
  }

  /** Deleting an order never creates an overlap. */
  lemma DeletePreservesNoDoubleBooking(st: State, patientId: int, id: Guid)
    requires NoDoubleBooking(st.db.orders)
    ensures NoDoubleBooking(DeletePatientAppointment(st, patientId, id).state.db.orders)
  {
    match FindIndex(st.db.orders, IsBooking(patientId, id))
    case None =>
    case Some(k) =>
      RemovePreservesNoDoubleBooking(st.db.orders, k);
  }

  /** Removing one element keeps the remaining orders free of overlaps. */
  lemma RemovePreservesNoDoubleBooking(orders: seq<Order>, k: nat)
    requires k < |orders|
    requires NoDoubleBooking(orders)
    ensures NoDoubleBooking(orders[..k] + orders[k + 1..])
  {
    var orders' := orders[..k] + orders[k + 1..];
    forall i, j | 0 <= i < |orders'| && 0 <= j < |orders'| && i != j && orders'[i].doctorId == orders'[j].doctorId
      ensures !Overlaps(orders'[i].startTime, orders'[i].endTime, orders'[j].startTime, orders'[j].endTime)
    {
      var i0 := if i < k then i else i + 1;
      var j0 := if j < k then j else j + 1;
      assert orders'[i] == orders[i0] && orders'[j] == orders[j0];
    }
  }
}
