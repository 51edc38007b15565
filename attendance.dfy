/**
 * The attendance status rule: the status a record gets when the employee
 * clocks in, and how clocking out changes it.
 */
module Attendance {
  import opened Entities

  const PRESENT: string := "Present"
  const LATE: string := "Late"
  const EARLY_DEPARTURE: string := "Early Departure"

  /** 09:00, the start of the working day. */
  const WORK_START: NanoOfDay := 9 * NANOS_PER_HOUR
  /** 17:00, the end of the working day. */
  const WORK_END: NanoOfDay := 17 * NANOS_PER_HOUR
  /** Fifteen minutes of grace after the start of the day. */
  const GRACE: int := 15 * NANOS_PER_MINUTE

  /** The time of day hh:mm:ss.nnnnnnnnn. */
  function WallTime(hour: int, minute: int, second: int, nano: int): (t: NanoOfDay)
    requires 0 <= hour < 24 && 0 <= minute < 60 && 0 <= second < 60 && 0 <= nano < NANOS_PER_SECOND
    ensures t / NANOS_PER_HOUR == hour
  {
    hour * NANOS_PER_HOUR + minute * NANOS_PER_MINUTE + second * NANOS_PER_SECOND + nano
  }

  /** Status on clock-in: late strictly after the end of the grace period. */
  function ClockInStatus(t: NanoOfDay): (s: string)
    ensures s == PRESENT || s == LATE
  {
    if t > WORK_START + GRACE then LATE else PRESENT
  }

  /** Status on clock-out: overwritten strictly before the end of the day, kept otherwise. */
  function ClockOutStatus(prior: string, t: NanoOfDay): (s: string)
    ensures s == EARLY_DEPARTURE || s == prior
  {
    if t < WORK_END then EARLY_DEPARTURE else prior
  }

  /** Comparing times of day as integers is the hour-minute-second-nano ordering of a wall clock. */
  lemma WallTimeOrder(h1: int, m1: int, s1: int, n1: int, h2: int, m2: int, s2: int, n2: int)
    requires 0 <= h1 < 24 && 0 <= m1 < 60 && 0 <= s1 < 60 && 0 <= n1 < NANOS_PER_SECOND
    requires 0 <= h2 < 24 && 0 <= m2 < 60 && 0 <= s2 < 60 && 0 <= n2 < NANOS_PER_SECOND
    ensures WallTime(h1, m1, s1, n1) < WallTime(h2, m2, s2, n2) <==>
      h1 < h2 || (h1 == h2 && (m1 < m2 || (m1 == m2 && (s1 < s2 || (s1 == s2 && n1 < n2)))))
  {
  }

  /** A clock-in is late exactly when the wall clock reads later than 09:15:00. */
  lemma LateIffAfterQuarterPastNine(h: int, m: int, s: int, n: int)
    requires 0 <= h < 24 && 0 <= m < 60 && 0 <= s < 60 && 0 <= n < NANOS_PER_SECOND
    ensures ClockInStatus(WallTime(h, m, s, n)) == LATE <==>
      h > 9 || (h == 9 && (m > 15 || (m == 15 && (s > 0 || n > 0))))
  {
    WallTimeOrder(9, 15, 0, 0, h, m, s, n);
  }

  /**
   * A clock-out before 17:00:00 reports an early departure whatever the
   * status was; from 17:00:00 on the clock-in status is kept.
   */
  lemma EarlyIffBeforeFive(prior: string, h: int, m: int, s: int, n: int)
    requires 0 <= h < 24 && 0 <= m < 60 && 0 <= s < 60 && 0 <= n < NANOS_PER_SECOND
    ensures h < 17 ==> ClockOutStatus(prior, WallTime(h, m, s, n)) == EARLY_DEPARTURE
    ensures h >= 17 ==> ClockOutStatus(prior, WallTime(h, m, s, n)) == prior
  {
    WallTimeOrder(h, m, s, n, 17, 0, 0, 0);
  }

  /** The boundary cases: 09:15 exactly is on time, any instant after it is late. */
  lemma GraceBoundary()
    ensures ClockInStatus(WallTime(8, 50, 0, 0)) == PRESENT
    ensures ClockInStatus(WallTime(9, 15, 0, 0)) == PRESENT
    ensures ClockInStatus(WallTime(9, 15, 0, 1)) == LATE
    ensures ClockInStatus(WallTime(9, 16, 0, 0)) == LATE
    ensures ClockInStatus(WallTime(9, 20, 0, 0)) == LATE
    ensures ClockOutStatus(LATE, WallTime(16, 30, 0, 0)) == EARLY_DEPARTURE
    ensures ClockOutStatus(PRESENT, WallTime(16, 59, 59, NANOS_PER_SECOND - 1)) == EARLY_DEPARTURE
    ensures ClockOutStatus(LATE, WallTime(17, 0, 0, 0)) == LATE
    ensures ClockOutStatus(PRESENT, WallTime(17, 30, 0, 0)) == PRESENT
  {
  }

  /** Once late, every later clock-in is late too. */
  lemma LateIsMonotone(t1: NanoOfDay, t2: NanoOfDay)
    requires t1 <= t2 && ClockInStatus(t1) == LATE
    ensures ClockInStatus(t2) == LATE
  {
  }
}
