# Employee attendance system — a Dafny model

This project models the core of a console employee-attendance system. It
keeps two ordered lists in memory: employees and attendance records. Five
operations change them: add, update and delete an employee, and clock in and
clock out. Both lists are written to and read from comma-delimited text
files. An import replaces a list wholesale. A summary counts the records
that are open and closed.

The model has five modules:

- `Optional` (`optional.dfy`) holds the `Option` type used for a null
  clock-out and for failed lookups and parses.
- `Entities` (`entities.dfy`) is the data model. It has `Employee`,
  `AttendanceRecord` and `DateTime`, the last being a day number plus the
  time of day in nanoseconds, which is the precision of a Java `LocalTime`.
  It also has `TimestampText`, the text form of a date-time: a formatter, and
  a parser that may fail. Their laws are stated as `Lawful`: parsing the
  formatted text gives the date-time back, and the text never contains a
  comma and is never the token `null`.
- `Attendance` (`attendance.dfy`) is the status rule. A clock-in strictly
  after 09:15 is `Late`, otherwise `Present`. A clock-out strictly before
  17:00 overwrites the status with `Early Departure`, otherwise it keeps the
  status. The lemmas show that comparing nanosecond counts gives the same
  answer as comparing wall-clock times field by field. That makes the
  model's `>` and `<` the same test as `LocalTime.isAfter` and `isBefore`.
- `Codec` (`codec.dfy`) covers the line format. It defines `String.join`,
  and `JavaSplit`, which is Java's `split(",")`. A text with no comma comes
  back whole. Any other text is cut at every comma, and the empty fields at
  the end are dropped. No comma is ever escaped. The module also has
  `toCSV` for both record kinds, line decoding, and the file-level
  functions: lines kept, lines rejected, and the run of good lines at the
  start of a file. The round-trip lemmas live here.
- `Store` (`store.dfy`) holds the class `AttendanceSystem`. Its fields
  `employees` and `attendanceRecords` are sequences that the methods update
  in place. The module also has the two loops the class methods share: the
  import scan, which counts accepted and failed lines, and the start-up
  load, which stops at the first bad line.

Some properties of the line format follow from Java's split dropping
trailing empty fields:

- A line that ends in empty fields loses them when read back.
- An employee saved with an empty email is written as `id,name,department,`.
  That line splits into at most three fields (fewer when the department,
  or also the name, is empty), so an import counts it as an error.
  Loading it at start-up indexes past the end of the field array, which ends
  the program (`EmptyEmailDoesNotRoundTrip`).
- A comma inside any field shifts the fields that follow it.
- Export files begin with a header line, but the default save files do not.
  Importing a save file therefore loses its first record
  (`ImportOfSaveFileLosesFirst`). Loading an export file at start-up reads
  the header as an employee with id `ID` (`LoadOfExportReadsHeader`).

Behaviour of the code that the model keeps, although a stricter store
would be easy to imagine:

- A second clock-in is not rejected. It makes a second open record, and the
  next clock-out closes the older one (`DoubleClockIn`).
- The status is free text, not a closed set of values. An import can bring
  in any string.
- An import line is accepted when it has four fields or more. Fields after
  the fourth are ignored.
- Ids are unique only through add, update and delete. Each of these
  preserves uniqueness, but an import can bring in duplicate ids.
- Clock-out reports only an outcome. It does not return the updated record.

## Model

| member | source | states |
|---|---|---|
| `Attendance.ClockInStatus` | employeesAttendanceSystem.java:229-234 | the clock-in status is always `Present` or `Late` |
| `Attendance.ClockOutStatus` | employeesAttendanceSystem.java:258-260 | the clock-out status is either `Early Departure` or the status the record already had |
| `Attendance.WallTimeOrder` | employeesAttendanceSystem.java:213-214 | one time of day is earlier than another, as nanosecond counts, exactly when it is earlier by hour, then minute, then second, then nanosecond |
| `Attendance.LateIffAfterQuarterPastNine` | employeesAttendanceSystem.java:232-234 | a clock-in is `Late` if and only if the wall clock reads later than 09:15:00.000000000 |
| `Attendance.EarlyIffBeforeFive` | employeesAttendanceSystem.java:258-260 | a clock-out before 17:00 gives `Early Departure` whatever the prior status; from 17:00 on the prior status is kept |
| `Attendance.GraceBoundary` | employeesAttendanceSystem.java:229-260 | 08:50 and 09:15 exactly are on time; 09:15 plus one nanosecond, 09:16 and 09:20 are late; 16:30 and 16:59:59.999999999 give an early departure even after a late clock-in; 17:00 and 17:30 keep the status |
| `Attendance.LateIsMonotone` | employeesAttendanceSystem.java:232-234 | if a clock-in is late, every later time of day is late too |
| `Codec.Join` | employeesAttendanceSystem.java:29-31 | `String.join(",", ...)`: the fields with a comma between each two; `SplitAllJoin` and `JoinSplitAll` show it is undone by cutting at commas |
| `Codec.JavaSplit` | employeesAttendanceSystem.java:353 | `split(",")`: a text with no comma comes back whole; otherwise the result is a prefix of the comma pieces and holds no comma; when the text has a comma, the dropped pieces are all empty and the last kept piece is not; `JavaSplitJoin` and `EmptyLastFieldIsDropped` give its value on joined fields |
| `Codec.SplitAll` | employeesAttendanceSystem.java:353 | cutting at every comma gives at least one piece, and no piece contains a comma |
| `Codec.DropTrailingEmpty` | employeesAttendanceSystem.java:353 | the result is a prefix of the fields; it is empty or ends in a non-empty field; every field removed was empty |
| `Codec.SplitAllJoin` | employeesAttendanceSystem.java:29-31 | cutting comma-joined fields gives them back when none of them contains a comma |
| `Codec.JoinSplitAll` | employeesAttendanceSystem.java:353 | joining the pieces of a text with commas gives the text back |
| `Codec.JavaSplitJoin` | employeesAttendanceSystem.java:353-355 | Java's split recovers two or more joined comma-free fields when the last field is not empty |
| `Codec.EmptyLastFieldIsDropped` | employeesAttendanceSystem.java:353-354 | Java's split of joined fields whose last field is empty (and whose field before it is not) loses that last field |
| `Codec.EmployeeToCsv` | employeesAttendanceSystem.java:29-31 | `Employee.toCSV`: id, name, department and email joined by commas; `EmployeeRoundTrip` shows that decoding gives the employee back |
| `Codec.ClockOutText` | employeesAttendanceSystem.java:57 | the token `null` for an absent clock-out, otherwise the formatted time; `RecordRoundTrip` shows both read back |
| `Codec.RecordToCsv` | employeesAttendanceSystem.java:53-59 | `AttendanceRecord.toCSV`: employee id, clock-in, clock-out text and status joined by commas; `RecordRoundTrip` shows that decoding gives the record back |
| `Codec.DecodeEmployeeLine` | employeesAttendanceSystem.java:353-359 | a line with at least four fields after the split gives an employee of the first four, any other line none; `EmployeeRoundTrip` and `EmptyEmailDoesNotRoundTrip` describe it on written lines |
| `Codec.DecodeAttendanceLine` | employeesAttendanceSystem.java:396-407 | a line needs four fields, a clock-in that parses, and a clock-out that is `null` or parses; anything else is an error; `RecordRoundTrip` describes it on written lines |
| `Codec.EmployeeRoundTrip` | employeesAttendanceSystem.java:29-31 | decoding `toCSV` of an employee gives the same id, name, department and email when no field contains a comma and the email is not empty |
| `Codec.EmptyEmailDoesNotRoundTrip` | employeesAttendanceSystem.java:353-358 | an employee with comma-free fields and an empty email is written as a line that splits into at most three fields and does not decode |
| `Codec.RecordRoundTrip` | employeesAttendanceSystem.java:53-59 | under the timestamp laws, decoding `toCSV` of a record gives the record back; an absent clock-out goes through `null` and comes back absent |
| `Codec.AfterHeader` | employeesAttendanceSystem.java:348 | the first line is the header and is dropped; a file with no lines has no body |
| `Codec.Keep` | employeesAttendanceSystem.java:351-363 | the decoded lines are at most as many as the lines |
| `Codec.CleanPrefix` | employeesAttendanceSystem.java:442-446 | every line in the leading run decodes, and the line just after the run, if any, does not |
| `Codec.Rejected` | employeesAttendanceSystem.java:357-362 | the number of lines that fail to decode, which is what `errorCount` counts; `KeepPlusRejected` ties it to the accepted lines |
| `Codec.KeepPlusRejected` | employeesAttendanceSystem.java:351-363 | accepted lines plus rejected lines equals the number of lines scanned |
| `Codec.KeepEmptyIff` | employeesAttendanceSystem.java:366-374 | nothing is accepted exactly when every line fails to decode |
| `Codec.KeepDecoded` | employeesAttendanceSystem.java:351-363 | lines that all decode are accepted as exactly their values in order, with no error and one clean run over the whole file |
| `Codec.ExportEmployees` | employeesAttendanceSystem.java:318-319 | an export file: the header line, then one `toCSV` line per employee in list order; `ExportImportEmployees` shows it imports back |
| `Codec.ExportAttendance` | employeesAttendanceSystem.java:331-332 | an attendance export file: the header line, then one `toCSV` line per record in list order; `ExportImportAttendance` shows it imports back |
| `Codec.EmployeeLines` | employeesAttendanceSystem.java:466-467 | the default employee file: one `toCSV` line per employee, no header; `SaveLoadEmployees` shows it loads back |
| `Codec.RecordLines` | employeesAttendanceSystem.java:474-475 | the default attendance file: one `toCSV` line per record, no header; `SaveLoadAttendance` shows it loads back |
| `Codec.ExportImportEmployees` | employeesAttendanceSystem.java:313-324 | importing an exported employee file gives back the same ordered employees with zero errors |
| `Codec.ExportImportAttendance` | employeesAttendanceSystem.java:326-337 | importing an exported attendance file gives back the same ordered records with zero errors |
| `Codec.SaveLoadEmployees` | employeesAttendanceSystem.java:465-471 | loading the saved employee file reads every line and gives back the same ordered employees |
| `Codec.SaveLoadAttendance` | employeesAttendanceSystem.java:473-479 | loading the saved attendance file reads every line and gives back the same ordered records |
| `Codec.ImportOfSaveFileLosesFirst` | employeesAttendanceSystem.java:466-467 | importing a save file, which has no header, gives back every employee except the first |
| `Codec.LoadOfExportReadsHeader` | employeesAttendanceSystem.java:318 | the export header line decodes as an employee with id `ID` |
| `Store.FirstIndex` | employeesAttendanceSystem.java:152-154 | the lookup finds the first element that matches, and finds nothing exactly when no element matches |
| `Store.FindEmployee` | employeesAttendanceSystem.java:152-154 | the position of the first employee with the id, and none exactly when no employee has it |
| `Store.FindOpenRecord` | employeesAttendanceSystem.java:245-247 | the position of the first record of the id with no clock-out, and none exactly when there is no such record |
| `Store.CountOpen` | employeesAttendanceSystem.java:429 | the number of records with no clock-out; `OpenPlusClosed`, `CountOpenSnoc` and `CountOpenUpdate` describe it |
| `Store.CountClosed` | employeesAttendanceSystem.java:430 | the number of records with a clock-out; `OpenPlusClosed` shows it equals the total minus the open ones |
| `Store.FirstIndexSnoc` | employeesAttendanceSystem.java:119-131 | an element appended to a list with no match becomes the first match |
| `Store.OpenPlusClosed` | employeesAttendanceSystem.java:428-430 | open records plus closed records equals the number of records |
| `Store.CountOpenSnoc` | employeesAttendanceSystem.java:236 | appending a record raises the open count by one exactly when the record is open |
| `Store.CountOpenUpdate` | employeesAttendanceSystem.java:255 | replacing one record changes the open count only by that record's open status |
| `Store.UniqueIdsRemove` | employeesAttendanceSystem.java:189 | removing one employee from a list with distinct ids leaves the ids distinct |
| `Store.ScanLines` | employeesAttendanceSystem.java:350-363 | the import loop collects exactly the decodable lines in order; its two counters are the accepted and the rejected lines, and they add up to the number of lines |
| `Store.LoadLines` | employeesAttendanceSystem.java:442-446 | the load loop returns the decoded leading run of good lines, and reports success exactly when the run covers the whole file |
| `Store.AttendanceSystem.constructor` | employeesAttendanceSystem.java:64-65 | the store starts with both lists empty |
| `Store.AttendanceSystem.AddEmployee` | employeesAttendanceSystem.java:119-131 | a taken id fails with `DuplicateId` and changes nothing; otherwise the employee is appended, every earlier entry is kept, and a lookup of the id now finds it; distinct ids stay distinct; the records do not change |
| `Store.AttendanceSystem.UpdateEmployee` | employeesAttendanceSystem.java:152-171 | an unknown id fails with `NotFound` and changes nothing; otherwise only the first employee with that id changes, and only the fields given as non-empty text; its id and every other employee stay the same |
| `Store.AttendanceSystem.DeleteEmployee` | employeesAttendanceSystem.java:180-189 | an unknown id fails with `NotFound` and changes nothing; otherwise exactly the first employee with that id is removed and the rest keep their order; distinct ids stay distinct |
| `Store.AttendanceSystem.ClockIn` | employeesAttendanceSystem.java:219-236 | an unknown employee fails with `NotFound` and changes nothing; otherwise one open record is appended with the id, the time and the clock-in status, and the open count rises by one |
| `Store.AttendanceSystem.ClockOut` | employeesAttendanceSystem.java:245-260 | with no open record for the id it fails with `NoOpenRecord` and changes nothing; otherwise only the first open record of the id changes, gaining the clock-out time and the clock-out status, and the open count falls by one |
| `Store.AttendanceSystem.ImportEmployeeData` | employeesAttendanceSystem.java:343-379 | a file that cannot be opened changes nothing; otherwise accepted plus errors equals the lines after the header; the employee list becomes exactly the accepted employees in file order if there is at least one, and is unchanged if there is none |
| `Store.AttendanceSystem.ImportAttendanceData` | employeesAttendanceSystem.java:386-424 | the same accounting and the same replace-or-keep rule for attendance records, where a line is also rejected when a timestamp does not parse |
| `Store.AttendanceSystem.LoadData` | employeesAttendanceSystem.java:439-463 | a missing file loads nothing; each list gains the decoded lines of its file in order; the load fails at the first bad line, and a bad employee line stops the attendance file from being read |
| `Store.AttendanceSystem.GenerateSummary` | employeesAttendanceSystem.java:427-430 | the total is the number of employees; clocked-in counts the records with no clock-out; clocked-out counts the records with one; the two add up to the number of records |
| `Store.DoubleClockIn` | employeesAttendanceSystem.java:219-247 | for an employee with no open record, two clock-ins leave two new records, and the next clock-out closes the older one and leaves the newer one open |

## Left out

- Menus, prompts, the `getIntInput` retry loop, `viewEmployees`, `viewAttendance` and all printed messages: these are console plumbing. The printed `yyyy-MM-dd HH:mm` form of a time is display only, so it is left out too.
- Reading the console: each operation takes its inputs (id, field values) as parameters.
- `LocalDateTime.now()`: the current date-time is a parameter of `ClockIn` and `ClockOut`.
- `LocalDateTime.toString` and `LocalDateTime.parse`: a foreign library, so the model treats them as the abstract pair `TimestampText`. The round-trip lemmas assume the laws in `Lawful` and nothing else about the ISO format.
- Line structure: a file is taken to be a list of lines, and a field is never split across lines. A field holding a line break would be written by `println` and read back by `readLine` as two lines, so the file round-trip lemmas would not hold for it. The program never produces such a field, because all field text comes from `Scanner.nextLine` or `readLine`.
- File handles: a file is a sequence of lines, and `None` stands for a file that cannot be opened (`FileNotFoundException` or an `IOException` on opening). An `IOException` partway through a read is not modelled.
- Export and save: these are modelled only as the lines they write (`ExportEmployees`, `ExportAttendance`, `EmployeeLines`, `RecordLines`). A `PrintWriter` that cannot be created, and its error message, are not modelled. The `.csv` suffix added to the export name is not modelled either.
- `System.exit` and process termination: when `LoadData` returns false, the program stops with an uncaught exception. What the lists hold at that point is stated, but nothing runs afterwards.
- Object identity: employees and attendance records are values. The store replaces the element at the index it found, and no other code holds a reference to a stored object, so nothing observable changes. `employees.remove(employee.get())` removes by identity the object the lookup found, and the model removes that same position.
- The `catch (Exception e)` in the employee import loop is left out, because nothing in that loop can throw. In the attendance import loop, a parse that throws is modelled as `parse` returning `None`.
- Loop duplication: the import loop and the load loop are each written once, as the generic `ScanLines` and `LoadLines`. The source repeats each loop for both record kinds.
