/**
 * The data model of the attendance system: employees, attendance records and
 * the timestamps they carry.
 */
module Entities {
  import opened Optional

  const NANOS_PER_SECOND: int := 1_000_000_000
  const NANOS_PER_MINUTE: int := 60_000_000_000
  const NANOS_PER_HOUR: int := 3_600_000_000_000
  const NANOS_PER_DAY: int := 86_400_000_000_000

  /** A wall-clock time of day, as nanoseconds since midnight (the precision of a local time). */
  type NanoOfDay = t: int | 0 <= t < NANOS_PER_DAY

  /** A local date-time: a day number and the time of day on that day. */
  datatype DateTime = DateTime(epochDay: int, nanoOfDay: NanoOfDay)

  /** An employee; `id` is the lookup key. */
  datatype Employee = Employee(id: string, name: string, department: string, email: string)

  /**
   * One clock-in/clock-out cycle. An absent `clockOut` means the employee is
   * still clocked in. `status` is free text ("Present", "Late",
   * "Early Departure", or whatever an imported file held).
   */
  datatype AttendanceRecord = AttendanceRecord(
    employeeId: string,
    clockIn: DateTime,
    clockOut: Option<DateTime>,
    status: string)

  /** The literal token written for an absent clock-out. */
  const NULL_TOKEN: string := "null"

  /**
   * The textual form of a date-time: a formatter and a parser that may fail.
   * The format itself belongs to the date-time library and is not modelled.
   */
  datatype TimestampText = TimestampText(format: DateTime -> string, parse: string -> Option<DateTime>)

  /**
   * What the model relies on about the timestamp text: parsing a formatted
   * date-time gives it back, and the formatted text never contains the field
   * delimiter and is never the null token.
   */
  ghost predicate Lawful(c: TimestampText) {
    forall t: DateTime ::
      c.parse(c.format(t)) == Some(t) && ',' !in c.format(t) && c.format(t) != NULL_TOKEN
  }
}
