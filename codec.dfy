/**
 * The delimited-text codec: one record per line, fields joined by commas with
 * no escaping, and the line splitting of Java's `String.split(",")`.
 */
module Codec {
  import opened Optional
  import opened Entities

  const DELIMITER: char := ','

  /** Fields joined by the delimiter (`String.join(",", ...)`). */
  function Join(fields: seq<string>): (r: string)
  {
    if |fields| == 0 then ""
    else if |fields| == 1 then fields[0]
    else fields[0] + [DELIMITER] + Join(fields[1..])
  }

  /** The text cut at every delimiter, empty pieces included. */
  function SplitAll(s: string): (r: seq<string>)
    ensures |r| >= 1
    ensures forall k :: 0 <= k < |r| ==> DELIMITER !in r[k]
  {
    if s == [] then [""]
    else
      var rest := SplitAll(s[1..]);
      if s[0] == DELIMITER then [""] + rest
      else [[s[0]] + rest[0]] + rest[1..]
  }

  /** The fields with the empty ones at the end removed. */
  function DropTrailingEmpty(fields: seq<string>): (r: seq<string>)
    ensures r <= fields
    ensures r == [] || r[|r| - 1] != ""
    ensures forall k :: |r| <= k < |fields| ==> fields[k] == ""
  {
    if |fields| > 0 && fields[|fields| - 1] == "" then DropTrailingEmpty(fields[..|fields| - 1])
    else fields
  }

  /**
   * `line.split(",")`: a text without a delimiter is returned whole (even
   * when empty); otherwise it is cut at every delimiter and the trailing empty
   * fields are dropped.
   */
  function JavaSplit(s: string): (r: seq<string>)
    ensures DELIMITER !in s ==> r == [s]
    ensures r <= SplitAll(s)
    ensures NoDelimiter(r)
    ensures DELIMITER in s ==> r == [] || r[|r| - 1] != ""
    ensures DELIMITER in s ==> forall k :: |r| <= k < |SplitAll(s)| ==> SplitAll(s)[k] == ""
  {
    if DELIMITER !in s then
      SplitAllNoDelimiter(s);
      [s]
    else DropTrailingEmpty(SplitAll(s))
  }

  predicate NoDelimiter(fields: seq<string>) {
    forall k :: 0 <= k < |fields| ==> DELIMITER !in fields[k]
  }

  lemma {:induction false} SplitAllNoDelimiter(a: string)
    requires DELIMITER !in a
    ensures SplitAll(a) == [a]
  {
    if a != [] {
      SplitAllNoDelimiter(a[1..]);
      assert [a[0]] + a[1..] == a;
    }
  }

  lemma {:induction false} SplitAllCons(a: string, s: string)
    requires DELIMITER !in a
    ensures SplitAll(a + [DELIMITER] + s) == [a] + SplitAll(s)
  {
    if a == [] {
      assert a + [DELIMITER] + s == [DELIMITER] + s;
    } else {
      assert (a + [DELIMITER] + s)[1..] == a[1..] + [DELIMITER] + s;
      SplitAllCons(a[1..], s);
      assert [a[0]] + a[1..] == a;
    }
  }

  /** Cutting joined fields gives the fields back, as long as none holds the delimiter. */
  lemma {:induction false} SplitAllJoin(fields: seq<string>)
    requires |fields| >= 1 && NoDelimiter(fields)
    ensures SplitAll(Join(fields)) == fields
  {
    if |fields| == 1 {
      SplitAllNoDelimiter(fields[0]);
    } else {
      SplitAllCons(fields[0], Join(fields[1..]));
      SplitAllJoin(fields[1..]);
      assert [fields[0]] + fields[1..] == fields;
    }
  }

  /** Joining the pieces of a text gives the text back. */
  lemma {:induction false} JoinSplitAll(s: string)
    ensures Join(SplitAll(s)) == s
  {
    if s != [] {
      JoinSplitAll(s[1..]);
      var rest := SplitAll(s[1..]);
      if s[0] != DELIMITER {
        var r := [[s[0]] + rest[0]] + rest[1..];
        if |rest| == 1 {
          assert s == [s[0]] + s[1..];
        } else {
          assert r[1..] == rest[1..];
          assert Join(rest) == rest[0] + [DELIMITER] + Join(rest[1..]);
          assert s == [s[0]] + s[1..];
        }
      } else {
        assert s == [DELIMITER] + s[1..];
      }
    }
  }

  /**
   * Java's split undoes the join of at least two delimiter-free fields whose
   * last field is not empty.
   */
  lemma JavaSplitJoin(fields: seq<string>)
    requires |fields| >= 2 && NoDelimiter(fields) && fields[|fields| - 1] != ""
    ensures JavaSplit(Join(fields)) == fields
  {
    assert Join(fields) == fields[0] + [DELIMITER] + Join(fields[1..]);
    assert Join(fields)[|fields[0]|] == DELIMITER;
    SplitAllJoin(fields);
  }

  /** A joined line whose last field is empty loses that field when split. */
  lemma EmptyLastFieldIsDropped(fields: seq<string>)
    requires |fields| >= 2 && NoDelimiter(fields) && fields[|fields| - 1] == ""
    requires fields[|fields| - 2] != ""
    ensures JavaSplit(Join(fields)) == fields[..|fields| - 1]
  {
    assert Join(fields) == fields[0] + [DELIMITER] + Join(fields[1..]);
    assert Join(fields)[|fields[0]|] == DELIMITER;
    SplitAllJoin(fields);
  }

  // ---- Records as lines ----

  /** `Employee.toCSV`. */
  function EmployeeToCsv(e: Employee): (line: string)
  {
    Join([e.id, e.name, e.department, e.email])
  }

  /** The text written for an optional clock-out. */
  function ClockOutText(t: Option<DateTime>, c: TimestampText): (text: string)
  {
    match t
    case None => NULL_TOKEN
    case Some(v) => c.format(v)
  }

  /** `AttendanceRecord.toCSV`. */
  function RecordToCsv(r: AttendanceRecord, c: TimestampText): (line: string)
  {
    Join([r.employeeId, c.format(r.clockIn), ClockOutText(r.clockOut, c), r.status])
  }

  /** One employee line: at least four fields, the first four taken in order. */
  function DecodeEmployeeLine(line: string): (r: Option<Employee>)
  {
    var data := JavaSplit(line);
    if |data| >= 4 then Some(Employee(data[0], data[1], data[2], data[3])) else None
  }

  /**
   * One attendance line: at least four fields, a clock-in that parses, and a
   * clock-out that is the null token or parses.
   */
  function DecodeAttendanceLine(line: string, c: TimestampText): (r: Option<AttendanceRecord>)
  {
    var data := JavaSplit(line);
    if |data| < 4 then None
    else
      match c.parse(data[1])
      case None => None
      case Some(clockIn) =>
        if data[2] == NULL_TOKEN then Some(AttendanceRecord(data[0], clockIn, None, data[3]))
        else
          match c.parse(data[2])
          case None => None
          case Some(clockOut) => Some(AttendanceRecord(data[0], clockIn, Some(clockOut), data[3]))
  }

  /** The attendance-line decoder for one timestamp text, as a function value. */
  function AttendanceDecoder(c: TimestampText): (d: string -> Option<AttendanceRecord>)
  {
    l => DecodeAttendanceLine(l, c)
  }

  /** An employee whose line reads back: no field holds the delimiter and the email is not empty. */
  predicate EncodableEmployee(e: Employee) {
    NoDelimiter([e.id, e.name, e.department, e.email]) && e.email != ""
  }

  /** A record whose line reads back: delimiter-free id and status, status not empty. */
  predicate EncodableRecord(r: AttendanceRecord) {
    DELIMITER !in r.employeeId && DELIMITER !in r.status && r.status != ""
  }

  lemma EmployeeRoundTrip(e: Employee)
    requires EncodableEmployee(e)
    ensures DecodeEmployeeLine(EmployeeToCsv(e)) == Some(e)
  {
    JavaSplitJoin([e.id, e.name, e.department, e.email]);
  }

  /**
   * An employee saved with an empty email is written as a line of at most
   * three fields, which no longer decodes.
   */
  lemma EmptyEmailDoesNotRoundTrip(e: Employee)
    requires NoDelimiter([e.id, e.name, e.department, e.email])
    requires e.email == ""
    ensures |JavaSplit(EmployeeToCsv(e))| <= 3
    ensures DecodeEmployeeLine(EmployeeToCsv(e)) == None
  {
    var fields := [e.id, e.name, e.department, e.email];
    SplitAllJoin(fields);
    assert Join(fields) == e.id + [DELIMITER] + Join(fields[1..]);
    assert Join(fields)[|e.id|] == DELIMITER;
    assert DropTrailingEmpty(fields) == DropTrailingEmpty(fields[..3]);
  }

  /** Records round-trip, an absent clock-out through the null token. */
  lemma RecordRoundTrip(r: AttendanceRecord, c: TimestampText)
    requires Lawful(c) && EncodableRecord(r)
    ensures DecodeAttendanceLine(RecordToCsv(r, c), c) == Some(r)
  {
    var fields := [r.employeeId, c.format(r.clockIn), ClockOutText(r.clockOut, c), r.status];
    assert c.parse(c.format(r.clockIn)) == Some(r.clockIn);
    match r.clockOut
    case None =>
      assert NoDelimiter(fields);
      JavaSplitJoin(fields);
    case Some(t) =>
      assert c.parse(c.format(t)) == Some(t);
      assert NoDelimiter(fields);
      JavaSplitJoin(fields);
  }

  // ---- Files as lines ----

  /** The header line of an exported employee file: "ID,Name,Department,Email". */
  const EMPLOYEE_HEADER: string := Join(["ID", "Name", "Department", "Email"])
  /** The header line of an exported attendance file: "Employee ID,Clock In,Clock Out,Status". */
  const ATTENDANCE_HEADER: string := Join(["Employee ID", "Clock In", "Clock Out", "Status"])

  /** The lines after the header; a file without any line has no body. */
  function AfterHeader(lines: seq<string>): (r: seq<string>)
    ensures |lines| > 0 ==> [lines[0]] + r == lines
    ensures |lines| == 0 ==> r == []
  {
    if |lines| == 0 then [] else lines[1..]
  }

  /** The lines of the default employee file: one per employee, no header. */
  function EmployeeLines(emps: seq<Employee>): (lines: seq<string>)
  {
    seq(|emps|, i requires 0 <= i < |emps| => EmployeeToCsv(emps[i]))
  }

  /** The lines of the default attendance file: one per record, no header. */
  function RecordLines(recs: seq<AttendanceRecord>, c: TimestampText): (lines: seq<string>)
  {
    seq(|recs|, i requires 0 <= i < |recs| => RecordToCsv(recs[i], c))
  }

  /** An exported employee file: a header line, then one line per employee. */
  function ExportEmployees(emps: seq<Employee>): (lines: seq<string>)
  {
    [EMPLOYEE_HEADER] + EmployeeLines(emps)
  }

  /** An exported attendance file: a header line, then one line per record. */
  function ExportAttendance(recs: seq<AttendanceRecord>, c: TimestampText): (lines: seq<string>)
  {
    [ATTENDANCE_HEADER] + RecordLines(recs, c)
  }

  // ---- Decoding many lines ----

  /** The decoded lines, in file order, with the undecodable ones left out. */
  function Keep<T>(lines: seq<string>, decode: string -> Option<T>): (r: seq<T>)
    ensures |r| <= |lines|
  {
    if lines == [] then []
    else
      var init := Keep(lines[..|lines| - 1], decode);
      match decode(lines[|lines| - 1])
      case Some(x) => init + [x]
      case None => init
  }

  /** The number of lines that do not decode. */
  function Rejected<T>(lines: seq<string>, decode: string -> Option<T>): (n: nat)
  {
    if lines == [] then 0
    else Rejected(lines[1..], decode) + (if decode(lines[0]).None? then 1 else 0)
  }

  /** The number of leading lines that decode. */
  function CleanPrefix<T>(lines: seq<string>, decode: string -> Option<T>): (n: nat)
    ensures n <= |lines|
    ensures forall k :: 0 <= k < n ==> decode(lines[k]).Some?
    ensures n < |lines| ==> decode(lines[n]).None?
  {
    if lines == [] || decode(lines[0]).None? then 0
    else 1 + CleanPrefix(lines[1..], decode)
  }

  lemma {:induction false} RejectedSnoc<T>(lines: seq<string>, line: string, decode: string -> Option<T>)
    ensures Rejected(lines + [line], decode) == Rejected(lines, decode) + (if decode(line).None? then 1 else 0)
  {
    if lines != [] {
      assert (lines + [line])[1..] == lines[1..] + [line];
      RejectedSnoc(lines[1..], line, decode);
    }
  }

  /** Every line is either kept or counted as an error. */
  lemma {:induction false} KeepPlusRejected<T>(lines: seq<string>, decode: string -> Option<T>)
    ensures |Keep(lines, decode)| + Rejected(lines, decode) == |lines|
  {
    if lines != [] {
      var init := lines[..|lines| - 1];
      KeepPlusRejected(init, decode);
      RejectedSnoc(init, lines[|lines| - 1], decode);
      assert init + [lines[|lines| - 1]] == lines;
    }
  }

  /** Nothing is kept exactly when every line fails to decode. */
  lemma {:induction false} KeepEmptyIff<T>(lines: seq<string>, decode: string -> Option<T>)
    ensures Keep(lines, decode) == [] <==> forall k :: 0 <= k < |lines| ==> decode(lines[k]).None?
  {
    if lines != [] {
      KeepEmptyIff(lines[..|lines| - 1], decode);
    }
  }

  /** Lines that all decode to the given values are kept as exactly those values, with no error. */
  lemma {:induction false} KeepDecoded<T>(lines: seq<string>, xs: seq<T>, decode: string -> Option<T>)
    requires |lines| == |xs|
    requires forall k :: 0 <= k < |lines| ==> decode(lines[k]) == Some(xs[k])
    ensures Keep(lines, decode) == xs
    ensures Rejected(lines, decode) == 0
    ensures CleanPrefix(lines, decode) == |lines|
  {
    if lines != [] {
      var n := |lines| - 1;
      KeepDecoded(lines[..n], xs[..n], decode);
      assert xs[..n] + [xs[n]] == xs;
      KeepPlusRejected(lines, decode);
    }
  }

  // ---- Round trips through files ----

  /** Exporting delimiter-free employees and importing the file reproduces them, in order. */
  lemma ExportImportEmployees(emps: seq<Employee>)
    requires forall k :: 0 <= k < |emps| ==> EncodableEmployee(emps[k])
    ensures Keep(AfterHeader(ExportEmployees(emps)), DecodeEmployeeLine) == emps
    ensures Rejected(AfterHeader(ExportEmployees(emps)), DecodeEmployeeLine) == 0
  {
    var body := AfterHeader(ExportEmployees(emps));
    assert body == EmployeeLines(emps);
    forall k | 0 <= k < |body| ensures DecodeEmployeeLine(body[k]) == Some(emps[k]) {
      EmployeeRoundTrip(emps[k]);
    }
    KeepDecoded(body, emps, DecodeEmployeeLine);
  }

  /** Exporting records and importing the file reproduces them, in order. */
  lemma ExportImportAttendance(recs: seq<AttendanceRecord>, c: TimestampText)
    requires Lawful(c)
    requires forall k :: 0 <= k < |recs| ==> EncodableRecord(recs[k])
    ensures Keep(AfterHeader(ExportAttendance(recs, c)), AttendanceDecoder(c)) == recs
    ensures Rejected(AfterHeader(ExportAttendance(recs, c)), AttendanceDecoder(c)) == 0
  {
    var body := AfterHeader(ExportAttendance(recs, c));
    assert body == RecordLines(recs, c);
    forall k | 0 <= k < |body| ensures DecodeAttendanceLine(body[k], c) == Some(recs[k]) {
      RecordRoundTrip(recs[k], c);
    }
    KeepDecoded(body, recs, AttendanceDecoder(c));
  }

  /** The default employee file, which has no header, loads back every employee. */
  lemma SaveLoadEmployees(emps: seq<Employee>)
    requires forall k :: 0 <= k < |emps| ==> EncodableEmployee(emps[k])
    ensures CleanPrefix(EmployeeLines(emps), DecodeEmployeeLine) == |emps|
    ensures Keep(EmployeeLines(emps), DecodeEmployeeLine) == emps
  {
    var lines := EmployeeLines(emps);
    forall k | 0 <= k < |lines| ensures DecodeEmployeeLine(lines[k]) == Some(emps[k]) {
      EmployeeRoundTrip(emps[k]);
    }
    KeepDecoded(lines, emps, DecodeEmployeeLine);
  }

  /** The default attendance file loads back every record. */
  lemma SaveLoadAttendance(recs: seq<AttendanceRecord>, c: TimestampText)
    requires Lawful(c)
    requires forall k :: 0 <= k < |recs| ==> EncodableRecord(recs[k])
    ensures CleanPrefix(RecordLines(recs, c), AttendanceDecoder(c)) == |recs|
    ensures Keep(RecordLines(recs, c), AttendanceDecoder(c)) == recs
  {
    var lines := RecordLines(recs, c);
    forall k | 0 <= k < |lines| ensures DecodeAttendanceLine(lines[k], c) == Some(recs[k]) {
      RecordRoundTrip(recs[k], c);
    }
    KeepDecoded(lines, recs, AttendanceDecoder(c));
  }

  /**
   * The header asymmetry: importing a default save file, which has no header,
   * loses its first employee.
   */
  lemma ImportOfSaveFileLosesFirst(emps: seq<Employee>)
    requires |emps| > 0
    requires forall k :: 0 <= k < |emps| ==> EncodableEmployee(emps[k])
    ensures Keep(AfterHeader(EmployeeLines(emps)), DecodeEmployeeLine) == emps[1..]
  {
    assert AfterHeader(EmployeeLines(emps)) == EmployeeLines(emps[1..]);
    SaveLoadEmployees(emps[1..]);
  }

  /** The other half of the asymmetry: loading an export file reads its header as an employee. */
  lemma LoadOfExportReadsHeader()
    ensures DecodeEmployeeLine(EMPLOYEE_HEADER) == Some(Employee("ID", "Name", "Department", "Email"))
  {
    EmployeeRoundTrip(Employee("ID", "Name", "Department", "Email"));
  }
}
