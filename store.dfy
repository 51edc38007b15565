/**
 * The record store: the employee list and the attendance list, kept in
 * insertion order, with the operations of the attendance system on them.
 */
module Store {
  import opened Optional
  import opened Entities
  import opened Attendance
  import opened Codec

  /** How an employee or attendance operation ended. */
  datatype Outcome = Done | DuplicateId | NotFound | NoOpenRecord

  /** How an import ended: the file could not be opened, nothing decoded, or some lines were imported. */
  datatype ImportOutcome =
    | FileUnavailable
    | NoValidData(errorCount: nat)
    | Imported(importedCount: nat, errorCount: nat)

  /** The counts of the summary report. */
  datatype Report = Report(totalEmployees: nat, currentlyClockedIn: nat, totalClockedOut: nat)

  /** The first index whose element satisfies `p` (`stream().filter(p).findFirst()`). */
  function FirstIndex<T>(s: seq<T>, p: T -> bool): (r: Option<nat>)
    ensures r.Some? ==> r.value < |s| && p(s[r.value])
    ensures r.Some? ==> forall k :: 0 <= k < r.value ==> !p(s[k])
    ensures r.None? <==> forall k :: 0 <= k < |s| ==> !p(s[k])
  {
    if s == [] then None
    else if p(s[0]) then Some(0)
    else
      match FirstIndex(s[1..], p)
      case None => None
      case Some(k) => Some(k + 1)
  }

  /** An element appended to a sequence with no match is the first match. */
  lemma {:induction false} FirstIndexSnoc<T>(s: seq<T>, x: T, p: T -> bool)
    requires FirstIndex(s, p).None? && p(x)
    ensures FirstIndex(s + [x], p) == Some(|s|)
  {
    if s != [] {
      assert (s + [x])[1..] == s[1..] + [x];
      FirstIndexSnoc(s[1..], x, p);
    }
  }

  /** The position of the first employee with this id. */
  function FindEmployee(emps: seq<Employee>, id: string): (r: Option<nat>)
    ensures r.Some? ==> r.value < |emps| && emps[r.value].id == id
    ensures r.Some? ==> forall k :: 0 <= k < r.value ==> emps[k].id != id
    ensures r.None? <==> forall k :: 0 <= k < |emps| ==> emps[k].id != id
  {
    FirstIndex(emps, (e: Employee) => e.id == id)
  }

  /** A record of this employee that has no clock-out yet. */
  predicate IsOpenFor(r: AttendanceRecord, id: string) {
    r.employeeId == id && r.clockOut.None?
  }

  /** The position of the first open record of this employee. */
  function FindOpenRecord(recs: seq<AttendanceRecord>, id: string): (r: Option<nat>)
    ensures r.Some? ==> r.value < |recs| && IsOpenFor(recs[r.value], id)
    ensures r.Some? ==> forall k :: 0 <= k < r.value ==> !IsOpenFor(recs[k], id)
    ensures r.None? <==> forall k :: 0 <= k < |recs| ==> !IsOpenFor(recs[k], id)
  {
    FirstIndex(recs, (r: AttendanceRecord) => IsOpenFor(r, id))
  }

  /** The employees an import file yields: its decodable lines after the header, in order. */
  function EmployeesIn(file: seq<string>): (emps: seq<Employee>)
  {
    Keep(AfterHeader(file), DecodeEmployeeLine)
  }

  /** The records an import file yields: its decodable lines after the header, in order. */
  function RecordsIn(file: seq<string>, c: TimestampText): (recs: seq<AttendanceRecord>)
  {
    Keep(AfterHeader(file), AttendanceDecoder(c))
  }

  /** No two employees share an id. */
  ghost predicate UniqueIds(emps: seq<Employee>) {
    forall i, j :: 0 <= i < j < |emps| ==> emps[i].id != emps[j].id
  }

  /** The number of records without a clock-out. */
  function CountOpen(recs: seq<AttendanceRecord>): (n: nat)
  {
    if recs == [] then 0
    else CountOpen(recs[1..]) + (if recs[0].clockOut.None? then 1 else 0)
  }

  /** The number of records with a clock-out. */
  function CountClosed(recs: seq<AttendanceRecord>): (n: nat)
  {
    if recs == [] then 0
    else CountClosed(recs[1..]) + (if recs[0].clockOut.Some? then 1 else 0)
  }

  /** Every record is open or closed. */
  lemma {:induction false} OpenPlusClosed(recs: seq<AttendanceRecord>)
    ensures CountOpen(recs) + CountClosed(recs) == |recs|
  {
    if recs != [] {
      OpenPlusClosed(recs[1..]);
    }
  }

  /** Appending a record adds one to the open count exactly when it is open. */
  lemma {:induction false} CountOpenSnoc(recs: seq<AttendanceRecord>, r: AttendanceRecord)
    ensures CountOpen(recs + [r]) == CountOpen(recs) + (if r.clockOut.None? then 1 else 0)
  {
    if recs != [] {
      assert (recs + [r])[1..] == recs[1..] + [r];
      CountOpenSnoc(recs[1..], r);
    }
  }

  /** Replacing one record changes the open count by the difference between the two. */
  lemma {:induction false} CountOpenUpdate(recs: seq<AttendanceRecord>, i: nat, r: AttendanceRecord)
    requires i < |recs|
    ensures CountOpen(recs[i := r]) + (if recs[i].clockOut.None? then 1 else 0)
         == CountOpen(recs) + (if r.clockOut.None? then 1 else 0)
  {
    if i > 0 {
      assert recs[i := r][1..] == recs[1..][i - 1 := r];
      CountOpenUpdate(recs[1..], i - 1, r);
    }
  }

  /** Removing one element keeps a list of distinct ids distinct. */
  lemma UniqueIdsRemove(emps: seq<Employee>, i: nat)
    requires i < |emps| && UniqueIds(emps)
    ensures UniqueIds(emps[..i] + emps[i + 1..])
  {
    var r := emps[..i] + emps[i + 1..];
    forall a, b | 0 <= a < b < |r| ensures r[a].id != r[b].id {
      var a' := if a < i then a else a + 1;
      var b' := if b < i then b else b + 1;
      assert r[a] == emps[a'] && r[b] == emps[b'];
    }
  }

  /** The lines of a default file; a missing file reads as empty. */
  function LinesOf(file: Option<seq<string>>): (r: seq<string>)
  {
    if file.Some? then file.value else []
  }

  /**
   * The import loop: decodes every line in order, collecting the decoded
   * values and counting the lines that do not decode.
   */
  method ScanLines<T>(lines: seq<string>, decode: string -> Option<T>)
    returns (imported: seq<T>, importedCount: nat, errorCount: nat)
    ensures imported == Keep(lines, decode)
    ensures importedCount == |imported|
    ensures errorCount == Rejected(lines, decode)
    ensures importedCount + errorCount == |lines|
  {
    imported, importedCount, errorCount := [], 0, 0;
    var i := 0;
    while i < |lines|
      invariant 0 <= i <= |lines|
      invariant imported == Keep(lines[..i], decode)
      invariant importedCount == |imported|
      invariant errorCount == Rejected(lines[..i], decode)
    {
      RejectedSnoc(lines[..i], lines[i], decode);
      assert lines[..i + 1] == lines[..i] + [lines[i]];
      var x := decode(lines[i]);
      if x.Some? {
        imported := imported + [x.value];
        importedCount := importedCount + 1;
      } else {
        errorCount := errorCount + 1;
      }
      i := i + 1;
    }
    assert lines[..i] == lines;
    KeepPlusRejected(lines, decode);
  }

  /**
   * The start-up load loop: decodes the lines in order and stops at the
   * first one that does not decode, reporting whether every line decoded.
   */
  method LoadLines<T>(lines: seq<string>, decode: string -> Option<T>) returns (loaded: seq<T>, ok: bool)
    ensures ok <==> CleanPrefix(lines, decode) == |lines|
    ensures loaded == Keep(lines[..CleanPrefix(lines, decode)], decode)
  {
    ghost var n := CleanPrefix(lines, decode);
    loaded := [];
    var i := 0;
    while i < |lines|
      invariant 0 <= i <= n
      invariant loaded == Keep(lines[..i], decode)
    {
      var x := decode(lines[i]);
      if x.None? {
        assert i == n;
        return loaded, false;
      }
      assert lines[..i + 1][..i] == lines[..i];
      loaded := loaded + [x.value];
      i := i + 1;
    }
    assert lines[..i] == lines;
    ok := true;
  }

  /**
   * The attendance system. Both lists are kept in insertion order and are
   * replaced wholesale by a successful import.
   */
  class AttendanceSystem {
    var employees: seq<Employee>
    var attendanceRecords: seq<AttendanceRecord>

    constructor ()
      ensures employees == [] && attendanceRecords == []
    {
      employees := [];
      attendanceRecords := [];
    }

    /** Adds an employee at the end unless the id is already taken. */
    method AddEmployee(id: string, name: string, department: string, email: string) returns (r: Outcome)
      modifies this
      ensures r == DuplicateId <==> exists k :: 0 <= k < |old(employees)| && old(employees)[k].id == id
      ensures r == DuplicateId || r == Done
      ensures r == DuplicateId ==> employees == old(employees)
      ensures r == Done ==> employees == old(employees) + [Employee(id, name, department, email)]
      ensures r == Done ==> FindEmployee(employees, id) == Some(|old(employees)|)
      ensures UniqueIds(old(employees)) ==> UniqueIds(employees)
      ensures attendanceRecords == old(attendanceRecords)
    {
      if FindEmployee(employees, id).Some? {
        return DuplicateId;
      }
      FirstIndexSnoc(employees, Employee(id, name, department, email), (e: Employee) => e.id == id);
      employees := employees + [Employee(id, name, department, email)];
      r := Done;
    }

    /**
     * Updates the first employee with this id; an empty name, department or
     * email leaves that field as it was.
     */
    method UpdateEmployee(id: string, name: string, department: string, email: string) returns (r: Outcome)
      modifies this
      ensures match FindEmployee(old(employees), id)
        case None => r == NotFound && employees == old(employees)
        case Some(i) =>
          var e := old(employees)[i];
          r == Done &&
          employees == old(employees)[i := Employee(
            e.id,
            if name == "" then e.name else name,
            if department == "" then e.department else department,
            if email == "" then e.email else email)]
      ensures UniqueIds(old(employees)) ==> UniqueIds(employees)
      ensures attendanceRecords == old(attendanceRecords)
    {
      var found := FindEmployee(employees, id);
      if found.None? {
        return NotFound;
      }
      var i := found.value;
      var e := employees[i];
      if name != "" { e := e.(name := name); }
      if department != "" { e := e.(department := department); }
      if email != "" { e := e.(email := email); }
      employees := employees[i := e];
      r := Done;
    }

    /** Removes the first employee with this id, keeping the others in order. */
    method DeleteEmployee(id: string) returns (r: Outcome)
      modifies this
      ensures match FindEmployee(old(employees), id)
        case None => r == NotFound && employees == old(employees)
        case Some(i) => r == Done && employees == old(employees)[..i] + old(employees)[i + 1..]
      ensures r == Done ==> |employees| == |old(employees)| - 1
      ensures UniqueIds(old(employees)) ==> UniqueIds(employees)
      ensures attendanceRecords == old(attendanceRecords)
    {
      var found := FindEmployee(employees, id);
      if found.None? {
        return NotFound;
      }
      var i := found.value;
      if UniqueIds(employees) {
        UniqueIdsRemove(employees, i);
      }
      employees := employees[..i] + employees[i + 1..];
      r := Done;
    }

    /**
     * Opens a record for a known employee at the time `now`, late after
     * 09:15. An open record the employee may already have is not checked.
     */
    method ClockIn(id: string, now: DateTime) returns (r: Outcome)
      modifies this
      ensures r == NotFound <==> FindEmployee(old(employees), id).None?
      ensures r == NotFound || r == Done
      ensures r == NotFound ==> attendanceRecords == old(attendanceRecords)
      ensures r == Done ==>
        attendanceRecords == old(attendanceRecords) + [AttendanceRecord(id, now, None, ClockInStatus(now.nanoOfDay))]
      ensures r == Done ==> CountOpen(attendanceRecords) == CountOpen(old(attendanceRecords)) + 1
      ensures employees == old(employees)
    {
      if FindEmployee(employees, id).None? {
        return NotFound;
      }
      var status := PRESENT;
      if now.nanoOfDay > WORK_START + GRACE {
        status := LATE;
      }
      var record := AttendanceRecord(id, now, None, status);
      CountOpenSnoc(attendanceRecords, record);
      attendanceRecords := attendanceRecords + [record];
      r := Done;
    }

    /**
     * Closes the first open record of this employee at the time `now`; a
     * departure before 17:00 overwrites the status.
     */
    method ClockOut(id: string, now: DateTime) returns (r: Outcome)
      modifies this
      ensures match FindOpenRecord(old(attendanceRecords), id)
        case None => r == NoOpenRecord && attendanceRecords == old(attendanceRecords)
        case Some(i) =>
          var rec := old(attendanceRecords)[i];
          r == Done &&
          attendanceRecords == old(attendanceRecords)[i := rec.(
            clockOut := Some(now),
            status := ClockOutStatus(rec.status, now.nanoOfDay))]
      ensures r == Done ==> CountOpen(attendanceRecords) == CountOpen(old(attendanceRecords)) - 1
      ensures employees == old(employees)
    {
      var found := FindOpenRecord(attendanceRecords, id);
      if found.None? {
        return NoOpenRecord;
      }
      var i := found.value;
      var rec := attendanceRecords[i].(clockOut := Some(now));
      if now.nanoOfDay < WORK_END {
        rec := rec.(status := EARLY_DEPARTURE);
      }
      CountOpenUpdate(attendanceRecords, i, rec);
      attendanceRecords := attendanceRecords[i := rec];
      r := Done;
    }

    /**
     * Imports employees from a file whose first line is a header. When at
     * least one line decodes, the employee list becomes exactly the decoded
     * lines in file order; otherwise it is left as it was.
     */
    method ImportEmployeeData(file: Option<seq<string>>) returns (r: ImportOutcome)
      modifies this
      ensures file.None? ==> r == FileUnavailable
      ensures file.Some? ==> r.Imported? || r.NoValidData?
      ensures file.Some? ==> (r.Imported? <==> EmployeesIn(file.value) != [])
      ensures r.Imported? ==> r.importedCount == |EmployeesIn(file.value)|
      ensures r.Imported? ==> r.importedCount + r.errorCount == |AfterHeader(file.value)|
      ensures r.NoValidData? ==> r.errorCount == |AfterHeader(file.value)|
      ensures employees == if r.Imported? then EmployeesIn(file.value) else old(employees)
      ensures attendanceRecords == old(attendanceRecords)
    {
      if file.None? {
        return FileUnavailable;
      }
      var importedEmployees, importedCount, errorCount := ScanLines(AfterHeader(file.value), DecodeEmployeeLine);
      if importedCount > 0 {
        employees := importedEmployees;
        r := Imported(importedCount, errorCount);
      } else {
        r := NoValidData(errorCount);
      }
    }

    /**
     * Imports attendance records from a file whose first line is a header,
     * with the same replace-or-keep rule as the employee import.
     */
    method ImportAttendanceData(file: Option<seq<string>>, c: TimestampText) returns (r: ImportOutcome)
      modifies this
      ensures file.None? ==> r == FileUnavailable
      ensures file.Some? ==> r.Imported? || r.NoValidData?
      ensures file.Some? ==> (r.Imported? <==> RecordsIn(file.value, c) != [])
      ensures r.Imported? ==> r.importedCount == |RecordsIn(file.value, c)|
      ensures r.Imported? ==> r.importedCount + r.errorCount == |AfterHeader(file.value)|
      ensures r.NoValidData? ==> r.errorCount == |AfterHeader(file.value)|
      ensures attendanceRecords == if r.Imported? then RecordsIn(file.value, c) else old(attendanceRecords)
      ensures employees == old(employees)
    {
      if file.None? {
        return FileUnavailable;
      }
      var importedRecords, importedCount, errorCount := ScanLines(AfterHeader(file.value), AttendanceDecoder(c));
      if importedCount > 0 {
        attendanceRecords := importedRecords;
        r := Imported(importedCount, errorCount);
      } else {
        r := NoValidData(errorCount);
      }
    }

    /**
     * Loads the default files, which have no header. A missing file loads
     * nothing. A line that does not decode ends the program: `ok` is false,
     * the lines before it have been appended, and nothing after it is read.
     */
    method LoadData(employeeFile: Option<seq<string>>, attendanceFile: Option<seq<string>>, c: TimestampText)
      returns (ok: bool)
      modifies this
      ensures var el := LinesOf(employeeFile);
        employees == old(employees) + Keep(el[..CleanPrefix(el, DecodeEmployeeLine)], DecodeEmployeeLine)
      ensures var el := LinesOf(employeeFile);
        CleanPrefix(el, DecodeEmployeeLine) < |el| ==> !ok && attendanceRecords == old(attendanceRecords)
      ensures var el := LinesOf(employeeFile); var al := LinesOf(attendanceFile);
        CleanPrefix(el, DecodeEmployeeLine) == |el| ==>
          && (ok <==> CleanPrefix(al, AttendanceDecoder(c)) == |al|)
          && attendanceRecords == old(attendanceRecords) + Keep(al[..CleanPrefix(al, AttendanceDecoder(c))], AttendanceDecoder(c))
    {
      var loadedEmployees, employeesOk := LoadLines(LinesOf(employeeFile), DecodeEmployeeLine);
      employees := employees + loadedEmployees;
      if !employeesOk {
        return false;
      }
      var loadedRecords, recordsOk := LoadLines(LinesOf(attendanceFile), AttendanceDecoder(c));
      attendanceRecords := attendanceRecords + loadedRecords;
      ok := recordsOk;
    }

    /** The summary counts: employees, records still open, records closed. */
    method GenerateSummary() returns (report: Report)
      ensures report.totalEmployees == |employees|
      ensures report.currentlyClockedIn == CountOpen(attendanceRecords)
      ensures report.totalClockedOut == CountClosed(attendanceRecords)
      ensures report.currentlyClockedIn + report.totalClockedOut == |attendanceRecords|
    {
      var clockedIn := CountOpen(attendanceRecords);
      OpenPlusClosed(attendanceRecords);
      report := Report(|employees|, clockedIn, |attendanceRecords| - clockedIn);
    }
  }

  /**
   * The store does not stop a second clock-in: two clock-ins leave two open
   * records, and the next clock-out closes the older one.
   */
  method DoubleClockIn(sys: AttendanceSystem, id: string, first: DateTime, second: DateTime, out: DateTime)
    requires FindEmployee(sys.employees, id).Some?
    requires FindOpenRecord(sys.attendanceRecords, id).None?
    modifies sys
    ensures var n := |old(sys.attendanceRecords)|;
      && |sys.attendanceRecords| == n + 2
      && sys.attendanceRecords[n].clockIn == first && sys.attendanceRecords[n].clockOut == Some(out)
      && sys.attendanceRecords[n + 1].clockIn == second && IsOpenFor(sys.attendanceRecords[n + 1], id)
  {
    var r1 := sys.ClockIn(id, first);
    var r2 := sys.ClockIn(id, second);
    var n := |old(sys.attendanceRecords)|;
    assert FindOpenRecord(sys.attendanceRecords, id) == Some(n) by {
      assert IsOpenFor(sys.attendanceRecords[n], id);
      forall k | 0 <= k < n ensures !IsOpenFor(sys.attendanceRecords[k], id) {
        assert sys.attendanceRecords[k] == old(sys.attendanceRecords)[k];
      }
    }
    var r3 := sys.ClockOut(id, out);
  }
}
