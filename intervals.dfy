/**
 * The two interval tests of the engine and the end-time arithmetic of a booking.
 * The slot generator uses a half-open overlap test; the booking conflict query
 * uses a different two-clause test, modelled here as written.
 */
module Intervals {
  import opened Store

  /** The slot generator's test: [s1, e1) and [s2, e2) overlap unless one ends before the other starts. */
  predicate Overlaps(s1: int, e1: int, s2: int, e2: int)
  {
    !(e1 <= s2 || s1 >= e2)
  }

  /**
   * The booking query's test for a candidate [s, e) against an existing [aStart, aEnd):
   * the candidate's start lies in [aStart, aEnd), or its end lies in (aStart, aEnd].
   */
  predicate BookingClash(s: int, e: int, aStart: int, aEnd: int)
  {
    (aStart <= s && aEnd > s) || (aStart < e && aEnd >= e)
  }

  /** The time of day `duration` minutes after `start`, wrapping past midnight. */
  function EndTime(start: Minute, duration: int): (end: Minute)
    ensures 0 <= start + duration < MinutesPerDay ==> end == start + duration
    ensures (start + duration - end) % MinutesPerDay == 0
  {
    (start + duration) % MinutesPerDay
  }

  lemma OverlapsSymmetric(s1: int, e1: int, s2: int, e2: int)
    ensures Overlaps(s1, e1, s2, e2) <==> Overlaps(s2, e2, s1, e1)
  {
  }

  /** Intervals that only touch at a boundary do not overlap. */
  lemma TouchingDoesNotOverlap(s1: int, m: int, e2: int)
    ensures !Overlaps(s1, m, m, e2) && !Overlaps(m, e2, s1, m)
  {
  }

  /** Soundness of the booking test: for a candidate that does not wrap, a clash is a real overlap. */
  lemma ClashIsOverlap(s: int, e: int, aStart: int, aEnd: int)
    requires s < e
    ensures BookingClash(s, e, aStart, aEnd) ==> Overlaps(s, e, aStart, aEnd)
  {
  }

  /**
   * Exactly what the booking test misses: among overlapping intervals it flags
   * all but those where the existing appointment lies strictly inside the candidate.
   */
  lemma ClashCharacterised(s: int, e: int, aStart: int, aEnd: int)
    requires s < e
    ensures BookingClash(s, e, aStart, aEnd) <==>
              Overlaps(s, e, aStart, aEnd) && !(s < aStart && aEnd < e)
  {
  }

  /** An existing 10:00-10:15 appointment does not stop a 09:45-10:30 booking, though they overlap. */
  lemma ClashMissesNestedAppointment()
    ensures Overlaps(585, 630, 600, 615)
    ensures !BookingClash(585, 630, 600, 615)
  {
  }

  /** Without the no-wrap condition soundness fails: 23:45-00:15 against 00:00-00:30. */
  lemma WrappedCandidateClashWithoutOverlap()
    ensures EndTime(1425, 30) == 15
    ensures BookingClash(1425, EndTime(1425, 30), 0, 30)
    ensures !Overlaps(1425, EndTime(1425, 30), 0, 30)
  {
  }

  /** Without start < end soundness fails too: a zero-minute request at 10:00 is flagged by 10:00-10:30, which it does not overlap. */
  lemma EmptyCandidateClashWithoutOverlap()
    ensures EndTime(600, 0) == 600
    ensures BookingClash(600, EndTime(600, 0), 600, 630)
    ensures !Overlaps(600, EndTime(600, 0), 600, 630)
  {
  }
}
