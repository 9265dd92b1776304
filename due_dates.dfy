/** Due-date helpers (src/lib/utils.ts). Both read the clock in the source;
    here the current instant `now` is a parameter. Instants are integer
    milliseconds, and the floating-point quotient of `daysUntilDue` is
    taken as exact, so `Math.ceil` becomes integer ceiling division. */
module DueDates {
  import opened Model

  const MillisPerDay: int := 1000 * 60 * 60 * 24

  /** `isOverdue`: the due instant lies strictly before now. */
  predicate IsOverdue(due: Instant, now: Instant)
  {
    due < now
  }

  /** The least integer `q` with `q * d >= n` (Dafny's `/` floors for a positive divisor). */
  function CeilDiv(n: int, d: int): (q: int)
    requires d > 0
    ensures (q - 1) * d < n <= q * d
  {
    -((-n) / d)
  }

  /** `daysUntilDue`: whole days until `due`, rounded up; 0 on the due instant,
      negative once at least a full day late. */
  function DaysUntilDue(due: Instant, now: Instant): (days: int)
    ensures (days - 1) * MillisPerDay < due - now <= days * MillisPerDay
  {
    CeilDiv(due - now, MillisPerDay)
  }

  /** An item due exactly now is not overdue and has 0 days left. */
  lemma DueNow(now: Instant)
    ensures !IsOverdue(now, now)
    ensures DaysUntilDue(now, now) == 0
  {
  }

  /** Not overdue means a non-negative day count; overdue means a
      non-positive one. */
  lemma SignAgreesWithOverdue(due: Instant, now: Instant)
    ensures !IsOverdue(due, now) ==> DaysUntilDue(due, now) >= 0
    ensures IsOverdue(due, now) ==> DaysUntilDue(due, now) <= 0
  {
  }

  /** The two helpers read the clock one after the other (`overdue` at
      `first`, the day count at `second`): their signs still agree as long as
      the second reading is not earlier and less than a day later. */
  lemma SignAgreesAcrossReadings(due: Instant, first: Instant, second: Instant)
    requires first <= second < first + MillisPerDay
    ensures !IsOverdue(due, first) ==> DaysUntilDue(due, second) >= 0
    ensures IsOverdue(due, first) ==> DaysUntilDue(due, second) <= 0
  {
  }

  /** An item less than one day late is overdue, yet shows 0 days. */
  lemma LateByLessThanADay(due: Instant, now: Instant)
    requires now - MillisPerDay < due < now
    ensures IsOverdue(due, now) && DaysUntilDue(due, now) == 0
  {
  }

  /** Moving the due date one day later adds exactly one day. */
  lemma OneDayLater(due: Instant, now: Instant)
    ensures DaysUntilDue(due + MillisPerDay, now) == DaysUntilDue(due, now) + 1
  {
  }

  /** The day count never decreases as the due date moves later. */
  lemma DaysMonotone(due1: Instant, due2: Instant, now: Instant)
    requires due1 <= due2
    ensures DaysUntilDue(due1, now) <= DaysUntilDue(due2, now)
  {
  }
}
