/**
 * The on-time rule of `mark_attendance`: a mark is "Late" when the local
 * clock reads later than 07:00 by hour and minute, and "Present" otherwise.
 * Seconds are never read, so 07:00:59 still counts as on time.
 */
module StatusRule {

  const Present: string := "Present"
  const Late: string := "Late"

  function StatusFor(hour: nat, minute: nat): (r: string)
    ensures r == Present || r == Late
    ensures r == Present <==> hour < 7 || (hour == 7 && minute == 0)
  {
    if hour > 7 || (hour == 7 && minute > 0) then Late else Present
  }

  /** On a real clock (minute < 60) a mark is late exactly when it falls
      after minute 420 of the day, that is after 07:00. */
  lemma LateIffAfterSeven(hour: nat, minute: nat)
    requires minute < 60
    ensures StatusFor(hour, minute) == Late <==> hour * 60 + minute > 7 * 60
  {
  }

  /** Once late, later in the same day stays late. */
  lemma LateIsMonotone(h1: nat, m1: nat, h2: nat, m2: nat)
    requires m1 < 60 && m2 < 60
    requires h1 * 60 + m1 <= h2 * 60 + m2
    requires StatusFor(h1, m1) == Late
    ensures StatusFor(h2, m2) == Late
  {
    LateIffAfterSeven(h1, m1);
    LateIffAfterSeven(h2, m2);
  }

  /** The boundary: 06:59 and 07:00 are on time, 07:01 is late. */
  lemma Boundary()
    ensures StatusFor(6, 59) == Present
    ensures StatusFor(7, 0) == Present
    ensures StatusFor(7, 1) == Late
  {
  }
}
