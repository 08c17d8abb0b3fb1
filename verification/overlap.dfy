/**
 * The doctor-busy check of AddBooking, as written, compared with the usual
 * overlap of half-open intervals [start, end).
 */
module Overlap {
  import opened BookingModel

  /** An interval whose start precedes its end (the source never checks this). */
  predicate WellFormed(start: Time, end: Time) {
    start < end
  }

  /** Half-open intervals [s1, e1) and [s2, e2) share a point in time. */
  predicate Overlaps(s1: Time, e1: Time, s2: Time, e2: Time) {
    s1 < e2 && s2 < e1
  }

  /**
   * The two overlaps the five-way check lets through: the existing order
   * starts with the candidate and ends after it, or starts before the
   * candidate and ends with it.
   */
  predicate MissedOverlap(existing: Order, start: Time, end: Time) {
    || (existing.startTime == start && existing.endTime > end)
    || (existing.startTime < start && existing.endTime == end)
  }

  /**
   * The five-way check of AddBooking: `existing` conflicts with a candidate
   * [start, end) when it starts strictly inside it, ends strictly inside it,
   * strictly contains it, lies strictly inside it, or is identical to it.
   * For well-formed intervals this is overlap minus the two missed cases,
   * so touching intervals never conflict.
   */
  function Conflicts(existing: Order, start: Time, end: Time): (r: bool)
    ensures WellFormed(existing.startTime, existing.endTime) && WellFormed(start, end) ==>
      (r <==> Overlaps(existing.startTime, existing.endTime, start, end) && !MissedOverlap(existing, start, end))
    ensures && WellFormed(existing.startTime, existing.endTime) && WellFormed(start, end)
            && (existing.endTime == start || existing.startTime == end)
            ==> !r
  {
    || (existing.startTime > start && existing.startTime < end)
    || (existing.endTime > start && existing.endTime < end)
    || (existing.startTime < start && existing.endTime > end)
    || (existing.startTime > start && existing.endTime < end)
    || (existing.startTime == start && existing.endTime == end)
  }

  /** The candidate-time predicate handed to `Any` by AddBooking. */
  function ConflictsWith(start: Time, end: Time): Order -> bool {
    (o: Order) => Conflicts(o, start, end)
  }

  /** The predicate handed to `Any` by the corrected booking rule. */
  function OverlapsWith(start: Time, end: Time): Order -> bool {
    (o: Order) => Overlaps(o.startTime, o.endTime, start, end)
  }
}
