/**
 * The entities the booking controller works on: orders (bookings), patients
 * with their clinic, doctors, the request body of a new booking, and the
 * controller's state (the stored records plus the per-session "last deleted
 * start time").
 */
module BookingModel {
  import opened Results

  /** A DateTime, as a tick count. Only comparisons are ever made on it. */
  type Time = int

  /** A 128-bit GUID. */
  newtype Guid = x: int | 0 <= x < 0x1_0000_0000_0000_0000_0000_0000_0000_0000

  /** The value of `new Guid()`: the all-zero GUID. */
  const EmptyGuid: Guid := 0

  /** A stored booking. Patient and doctor ids are C# longs; only compared. */
  datatype Order = Order(
    id: Guid,
    startTime: Time,
    endTime: Time,
    patientId: int,
    doctorId: int,
    surgeryType: int)

  /** A clinic; its surgery type is the default for its patients' bookings. */
  datatype Clinic = Clinic(id: int, surgeryType: int)

  datatype Patient = Patient(clinic: Clinic)

  /** The request body of a booking request. Its `id` is never used. */
  datatype NewBooking = NewBooking(
    id: Guid,
    startTime: Time,
    endTime: Time,
    patientId: int,
    doctorId: int)

  /**
   * The relational store: the Order table in storage order, the Patient table
   * keyed by id, and the ids of the Doctor table. A doctor's `Orders`
   * navigation collection is the stored orders with that DoctorId.
   */
  datatype Db = Db(orders: seq<Order>, patients: map<int, Patient>, doctors: set<int>)

  /**
   * Everything the controller reads or writes: the store and the "Starttime"
   * entry of one client's session, set by a successful delete.
   */
  datatype State = State(db: Db, sessionStart: Option<Time>)

  /** The 400 responses the controller can produce. */
  datatype Error = NoBookingsFound | CannotBookPastDate | DoctorIsBusy | BookingDoesNotExist
  {
    /** The message carried in the response body. */
    function Message(): string {
      match this
      case NoBookingsFound => "No bookings found"
      case CannotBookPastDate => "Cannot book past date"
      case DoctorIsBusy => "Doctor is busy"
      case BookingDoesNotExist => "Booking does not exist"
    }
  }

  /** A controller action's response together with the state after it. */
  datatype Step<+T> = Step(state: State, result: Result<T, Error>)
}
