/** The HRMS backend as one in-memory store: the employees and attendance collections, and one
    method per route handler that reads or changes them. */
module Backend {
  import opened Wrappers
  import opened Clock
  import opened AttendanceRules
  import opened Validation
  import opened EmployeeModel
  import opened Employees
  import opened Queries
  import opened Dashboard

  /** The ways a request fails. */
  datatype Error =
    | MissingFields          // a required field is missing or empty
    | EmployeeNotFound       // no employee with the given id
    | NoInRecord             // mark-out without a record for the day
    | AlreadyMarked          // mark-in or mark-absent when the day already has a record
    | AlreadyMarkedOut       // mark-out when the record already has a departure time
    | DuplicateEmployeeId    // add an employee whose id is taken
    | DuplicateEmail         // add an employee whose E-mail is taken
    | InvalidTime            // a time that is not "HH:MM"; the parse error escapes the handler
    | Invalid(errors: seq<FieldError>)  // the request body fails validation

  /** The HTTP status code of each failure. */
  function Code(e: Error): (c: nat)
    ensures c == 400 <==> e == MissingFields
    ensures c == 404 <==> e in {EmployeeNotFound, NoInRecord}
    ensures c == 409 <==> e in {AlreadyMarked, AlreadyMarkedOut, DuplicateEmployeeId, DuplicateEmail}
    ensures c == 422 <==> e.Invalid?
    ensures c == 500 <==> e == InvalidTime
  {
    match e
    case MissingFields => 400
    case EmployeeNotFound => 404
    case NoInRecord => 404
    case AlreadyMarked => 409
    case AlreadyMarkedOut => 409
    case DuplicateEmployeeId => 409
    case DuplicateEmail => 409
    case InvalidTime => 500
    case Invalid(_) => 422
  }

  /** An attendance record as returned to clients (without the database's object id). */
  datatype AttendanceView = AttendanceView(
    employeeId: string,
    date: string,
    inTime: Option<string>,
    outTime: Option<string>,
    status: string)

  function View(r: Record): AttendanceView {
    AttendanceView(r.employeeId, r.date, r.inTime, r.outTime, Label(r.status))
  }

  /** The loop of both attendance listings: serialise the query result one record at a time. */
  method ViewAll(records: seq<Record>) returns (views: seq<AttendanceView>)
    ensures |views| == |records|
    ensures forall k :: 0 <= k < |views| ==> views[k] == View(records[k])
  {
    views := [];
    var i := 0;
    while i < |records|
      invariant 0 <= i <= |records|
      invariant |views| == i
      invariant forall k :: 0 <= k < i ==> views[k] == View(records[k])
    {
      views := views + [View(records[i])];
      i := i + 1;
    }
  }

  /** Every attendance record belongs to a stored employee. */
  ghost predicate Referenced(att: seq<Record>, emps: seq<Employee>) {
    forall k :: 0 <= k < |att| ==> att[k].employeeId in EmployeeIds(emps)
  }

  /** The employee ids with a record on `date`. */
  function DayIds(att: seq<Record>, date: string): (ids: set<string>)
    ensures forall id :: id in ids <==> exists k :: 0 <= k < |att| && att[k].employeeId == id && att[k].date == date
  {
    if att == [] then {}
    else
      var last := att[|att| - 1];
      var prefix := DayIds(att[..|att| - 1], date);
      var ids := prefix + (if last.date == date then {last.employeeId} else {});
      assert forall id :: id in ids <==> exists k :: 0 <= k < |att| && att[k].employeeId == id && att[k].date == date by {
        forall id ensures id in ids ==> exists k :: 0 <= k < |att| && att[k].employeeId == id && att[k].date == date {
          if id in prefix {
            var k :| 0 <= k < |att| - 1 && att[..|att| - 1][k].employeeId == id && att[..|att| - 1][k].date == date;
            assert att[k].employeeId == id && att[k].date == date;
          }
        }
        forall id | exists k :: 0 <= k < |att| && att[k].employeeId == id && att[k].date == date ensures id in ids {
          var k :| 0 <= k < |att| && att[k].employeeId == id && att[k].date == date;
          if k < |att| - 1 {
            assert att[..|att| - 1][k] == att[k];
          }
        }
      }
      ids
  }

  /** With one record per employee and day, a day has as many records as employee ids. */
  lemma {:induction false} DayIdsCount(att: seq<Record>, date: string)
    requires UniqueKeys(att)
    ensures |DayIds(att, date)| == |OnDate(att, date)|
  {
    if att != [] {
      var prefix := att[..|att| - 1];
      var last := att[|att| - 1];
      assert UniqueKeys(prefix) by {
        forall i, j | 0 <= i < j < |prefix|
          ensures !(prefix[i].employeeId == prefix[j].employeeId && prefix[i].date == prefix[j].date)
        {
          assert prefix[i] == att[i] && prefix[j] == att[j];
        }
      }
      DayIdsCount(prefix, date);
      if last.date == date {
        assert last.employeeId !in DayIds(prefix, date) by {
          forall k | 0 <= k < |prefix| && prefix[k].date == date ensures prefix[k].employeeId != last.employeeId {
            assert prefix[k] == att[k];
          }
        }
      }
    }
  }

  lemma SubsetSize<T>(a: set<T>, b: set<T>)
    requires a <= b
    ensures |a| <= |b|
  {
    assert b == a + (b - a);
  }

  /** With one record per employee and day, and every record belonging to a stored employee,
      no day has more records than there are employees. */
  lemma DayBound(att: seq<Record>, emps: seq<Employee>, date: string)
    requires UniqueKeys(att) && Referenced(att, emps)
    ensures |OnDate(att, date)| <= |emps|
  {
    DayIdsCount(att, date);
    SubsetSize(DayIds(att, date), EmployeeIds(emps));
    EmployeeIdsBound(emps);
  }

  /** The two collections of the store. */
  class Hrms {
    var employees: seq<Employee>
    var attendance: seq<Record>

    /** The unique indexes on employee id, E-mail and (employee id, date), and the shapes a
        record can take. */
    ghost predicate Valid()
      reads this
    {
      && UniqueIds(employees)
      && UniqueEmails(employees)
      && UniqueKeys(attendance)
      && forall k :: 0 <= k < |attendance| ==> WellFormed(attendance[k])
    }

    /** Every attendance record belongs to a stored employee. The handlers keep this, but
        mark-out does not rely on it: it looks the employee up again. */
    ghost predicate Integrity()
      reads this
    {
      Referenced(attendance, employees)
    }

    constructor ()
      ensures Valid() && Integrity()
      ensures employees == [] && attendance == []
    {
      employees := [];
      attendance := [];
    }

    /** POST /attendance/mark-in. */
    method MarkIn(employeeId: Option<string>, date: Option<string>, inTime: Option<string>)
      returns (r: Result<AttendanceView, Error>)
      requires Valid()
      modifies this
      ensures Valid() && employees == old(employees)
      ensures old(Integrity()) ==> Integrity()
      ensures r.Err? ==> attendance == old(attendance)
      ensures !(Given(employeeId) && Given(date) && Given(inTime)) ==> r == Err(MissingFields)
      ensures Given(employeeId) && Given(date) && Given(inTime) ==>
        var id, day := employeeId.value, date.value;
        var emp := FindEmployee(employees, id);
        if emp.None? then r == Err(EmployeeNotFound)
        else if FindRecord(old(attendance), id, day).Some? then r == Err(AlreadyMarked)
        else
          var inMinute, startMinute := ParseTime(inTime.value), ParseTime(ShiftStart(employees[emp.value]));
          if inMinute.None? || startMinute.None? then r == Err(InvalidTime)
          else
            var rec := ArrivalRecord(id, day, inTime.value, inMinute.value, startMinute.value);
            && attendance == old(attendance) + [rec]
            && r == Ok(View(rec))
            && FindRecord(attendance, id, day) == Some(|old(attendance)|)
    {
      if !(Given(employeeId) && Given(date) && Given(inTime)) {
        return Err(MissingFields);
      }
      var id, day, time := employeeId.value, date.value, inTime.value;
      var emp := FindEmployee(employees, id);
      if emp.None? {
        return Err(EmployeeNotFound);
      }
      var existing := FindRecord(attendance, id, day);
      if existing.Some? {
        return Err(AlreadyMarked);
      }
      var inMinute := ParseTime(time);
      var startMinute := ParseTime(ShiftStart(employees[emp.value]));
      if inMinute.None? || startMinute.None? {
        return Err(InvalidTime);
      }
      var rec := ArrivalRecord(id, day, time, inMinute.value, startMinute.value);
      FindRecordAppend(attendance, rec);
      attendance := attendance + [rec];
      r := Ok(View(rec));
    }

    /** POST /attendance/mark-out. The record is looked up before the employee. */
    method MarkOut(employeeId: Option<string>, date: Option<string>, outTime: Option<string>)
      returns (r: Result<AttendanceView, Error>)
      requires Valid()
      modifies this
      ensures Valid() && employees == old(employees)
      ensures old(Integrity()) ==> Integrity() && r != Err(EmployeeNotFound)
      ensures r.Err? ==> attendance == old(attendance)
      ensures !(Given(employeeId) && Given(date) && Given(outTime)) ==> r == Err(MissingFields)
      ensures Given(employeeId) && Given(date) && Given(outTime) ==>
        var id, day := employeeId.value, date.value;
        var found := FindRecord(old(attendance), id, day);
        var emp := FindEmployee(employees, id);
        if found.None? then r == Err(NoInRecord)
        else if Given(old(attendance)[found.value].outTime) then r == Err(AlreadyMarkedOut)
        else if emp.None? then r == Err(EmployeeNotFound)
        else
          var outMinute, endMinute := ParseTime(outTime.value), ParseTime(ShiftEnd(employees[emp.value]));
          if outMinute.None? || endMinute.None? then r == Err(InvalidTime)
          else
            var rec := Departed(old(attendance)[found.value], outTime.value, outMinute.value, endMinute.value);
            && attendance == old(attendance)[found.value := rec]
            && r == Ok(View(rec))
            && FindRecord(attendance, id, day) == found
            && Given(attendance[found.value].outTime)
    {
      if !(Given(employeeId) && Given(date) && Given(outTime)) {
        return Err(MissingFields);
      }
      var id, day, time := employeeId.value, date.value, outTime.value;
      var found := FindRecord(attendance, id, day);
      if found.None? {
        return Err(NoInRecord);
      }
      var i := found.value;
      if Given(attendance[i].outTime) {
        return Err(AlreadyMarkedOut);
      }
      var emp := FindEmployee(employees, id);
      EmployeeIdsFind(employees, id);
      if emp.None? {
        return Err(EmployeeNotFound);
      }
      var outMinute := ParseTime(time);
      var endMinute := ParseTime(ShiftEnd(employees[emp.value]));
      if outMinute.None? || endMinute.None? {
        return Err(InvalidTime);
      }
      var rec := Departed(attendance[i], time, outMinute.value, endMinute.value);
      DepartedWellFormed(attendance[i], time, outMinute.value, endMinute.value);
      FindRecordAfterUpdate(attendance, i, rec, id, day);
      attendance := attendance[i := rec];
      r := Ok(View(rec));
    }

    /** POST /attendance/mark-absent. */
    method MarkAbsent(employeeId: Option<string>, date: Option<string>)
      returns (r: Result<AttendanceView, Error>)
      requires Valid()
      modifies this
      ensures Valid() && employees == old(employees)
      ensures old(Integrity()) ==> Integrity()
      ensures r.Err? ==> attendance == old(attendance)
      ensures !(Given(employeeId) && Given(date)) ==> r == Err(MissingFields)
      ensures Given(employeeId) && Given(date) ==>
        var id, day := employeeId.value, date.value;
        if FindEmployee(employees, id).None? then r == Err(EmployeeNotFound)
        else if FindRecord(old(attendance), id, day).Some? then r == Err(AlreadyMarked)
        else
          && attendance == old(attendance) + [AbsentRecord(id, day)]
          && r == Ok(View(AbsentRecord(id, day)))
          && FindRecord(attendance, id, day) == Some(|old(attendance)|)
    {
      if !(Given(employeeId) && Given(date)) {
        return Err(MissingFields);
      }
      var id, day := employeeId.value, date.value;
      var emp := FindEmployee(employees, id);
      if emp.None? {
        return Err(EmployeeNotFound);
      }
      var existing := FindRecord(attendance, id, day);
      if existing.Some? {
        return Err(AlreadyMarked);
      }
      var rec := AbsentRecord(id, day);
      FindRecordAppend(attendance, rec);
      attendance := attendance + [rec];
      r := Ok(View(rec));
    }

    /** GET /attendance: every record, or those of one date, newest first. */
    method GetAllAttendance(date: Option<string>) returns (views: seq<AttendanceView>)
      ensures |views| == |Listing(attendance, None, date)|
      ensures forall k :: 0 <= k < |views| ==> views[k] == View(Listing(attendance, None, date)[k])
    {
      views := ViewAll(Listing(attendance, None, date));
    }

    /** GET /attendance/{employee_id}: the records of one employee, possibly of one date only,
        newest first. */
    method GetAttendanceByEmployee(employeeId: string, date: Option<string>) returns (views: seq<AttendanceView>)
      ensures |views| == |Listing(attendance, Some(employeeId), date)|
      ensures forall k :: 0 <= k < |views| ==> views[k] == View(Listing(attendance, Some(employeeId), date)[k])
    {
      views := ViewAll(Listing(attendance, Some(employeeId), date));
    }

    /** POST /employees. The body is validated first; the id is checked for a duplicate before
        the E-mail. */
    method AddEmployee(employeeId: string, fullName: string, email: string, department: string,
                       shiftStartTime: Option<string>, shiftEndTime: Option<string>)
      returns (r: Result<EmployeeView, Error>)
      requires Valid()
      modifies this
      ensures Valid() && attendance == old(attendance)
      ensures old(Integrity()) ==> Integrity()
      ensures r.Err? ==> employees == old(employees)
      ensures var body := CreateEmployee(employeeId, fullName, email, department, shiftStartTime, shiftEndTime);
        if body.Err? then r == Err(Invalid(body.error))
        else if FindEmployee(old(employees), body.value.employeeId).Some? then r == Err(DuplicateEmployeeId)
        else if FindEmail(old(employees), body.value.email).Some? then r == Err(DuplicateEmail)
        else
          && employees == old(employees) + [Stored(body.value)]
          && r == Ok(Serialize(Stored(body.value)))
          && EmployeeIds(employees) == EmployeeIds(old(employees)) + {body.value.employeeId}
    {
      var body := CreateEmployee(employeeId, fullName, email, department, shiftStartTime, shiftEndTime);
      if body.Err? {
        return Err(Invalid(body.error));
      }
      var c := body.value;
      if FindEmployee(employees, c.employeeId).Some? {
        return Err(DuplicateEmployeeId);
      }
      if FindEmail(employees, c.email).Some? {
        return Err(DuplicateEmail);
      }
      var e := Stored(c);
      AppendEmployeeIds(employees, e);
      employees := employees + [e];
      r := Ok(Serialize(e));
    }

    /** GET /employees: every employee in storage order. */
    method ListEmployees() returns (views: seq<EmployeeView>)
      ensures |views| == |employees|
      ensures forall k :: 0 <= k < |views| ==> views[k] == Serialize(employees[k])
    {
      views := [];
      var i := 0;
      while i < |employees|
        invariant 0 <= i <= |employees|
        invariant |views| == i
        invariant forall k :: 0 <= k < i ==> views[k] == Serialize(employees[k])
      {
        views := views + [Serialize(employees[i])];
        i := i + 1;
      }
    }

    /** DELETE /employees/{employee_id}: the employee's attendance records go first, then the
        employee. */
    method DeleteEmployee(employeeId: string) returns (r: Result<string, Error>)
      requires Valid()
      modifies this
      ensures Valid()
      ensures old(Integrity()) ==> Integrity()
      ensures FindEmployee(old(employees), employeeId).None? ==>
        r == Err(EmployeeNotFound) && employees == old(employees) && attendance == old(attendance)
      ensures FindEmployee(old(employees), employeeId).Some? ==>
        && r == Ok("Employee '" + employeeId + "' and their attendance records deleted successfully.")
        && employees == RemoveAt(old(employees), FindEmployee(old(employees), employeeId).value)
        && EmployeeIds(employees) == EmployeeIds(old(employees)) - {employeeId}
        && attendance == WithoutEmployee(old(attendance), employeeId)
    {
      var emp := FindEmployee(employees, employeeId);
      if emp.None? {
        return Err(EmployeeNotFound);
      }
      WithoutEmployeeUnique(attendance, employeeId);
      RemoveEmployeeIds(employees, emp.value);
      RemoveEmployeeUnique(employees, emp.value);
      DeleteKeepsShapes(attendance, employees, emp.value);
      attendance := WithoutEmployee(attendance, employeeId);
      employees := RemoveAt(employees, emp.value);
      r := Ok("Employee '" + employeeId + "' and their attendance records deleted successfully.");
    }

    /** GET /dashboard/summary. `today` stands for the server's current date. */
    method GetDashboardSummary(date: Option<string>, today: string) returns (s: Summary)
      ensures s.date == (if Given(date) then date.value else today)
      ensures s.totalEmployees == |employees|
      ensures s.counts == Tally(OnDate(attendance, s.date))
      ensures s.unmarked == Unmarked(|employees|, |OnDate(attendance, s.date)|)
      ensures Valid() && Integrity() ==> s.counts.Total() + s.unmarked == |employees|
    {
      s := Summarize(attendance, date, today, |employees|);
      DayBoundIf(attendance, employees, s.date);
    }
  }

  /** Deleting an employee together with their records keeps every remaining record well
      formed and belonging to a remaining employee. */
  lemma DeleteKeepsShapes(att: seq<Record>, emps: seq<Employee>, k: nat)
    requires k < |emps| && UniqueIds(emps)
    ensures var att' := WithoutEmployee(att, emps[k].employeeId);
      && ((forall i :: 0 <= i < |att| ==> WellFormed(att[i])) ==> forall i :: 0 <= i < |att'| ==> WellFormed(att'[i]))
      && (Referenced(att, emps) ==> Referenced(att', RemoveAt(emps, k)))
  {
    var id := emps[k].employeeId;
    var att' := WithoutEmployee(att, id);
    RemoveEmployeeIds(emps, k);
    forall i | 0 <= i < |att'| ensures att'[i] in att && att'[i].employeeId != id {
      assert att'[i] in att';
    }
  }

  /** A document whose id and E-mail are new extends the ids by its id and keeps both unique. */
  lemma AppendEmployeeIds(emps: seq<Employee>, e: Employee)
    requires FindEmployee(emps, e.employeeId).None? && FindEmail(emps, e.email).None?
    requires UniqueIds(emps) && UniqueEmails(emps)
    ensures EmployeeIds(emps + [e]) == EmployeeIds(emps) + {e.employeeId}
    ensures UniqueIds(emps + [e]) && UniqueEmails(emps + [e])
  {
    var r := emps + [e];
    forall id | id in EmployeeIds(r) ensures id in EmployeeIds(emps) + {e.employeeId} {
      var k :| 0 <= k < |r| && r[k].employeeId == id;
      if k < |emps| { assert emps[k].employeeId == id; }
    }
    forall id | id in EmployeeIds(emps) ensures id in EmployeeIds(r) {
      var k :| 0 <= k < |emps| && emps[k].employeeId == id;
      assert r[k].employeeId == id;
    }
    assert r[|emps|].employeeId == e.employeeId;
  }

  /** The dashboard total, stated for any store: when the invariants hold, the buckets and the
      unmarked count add up to the number of employees. */
  lemma DayBoundIf(att: seq<Record>, emps: seq<Employee>, date: string)
    ensures UniqueKeys(att) && Referenced(att, emps) ==>
      Tally(OnDate(att, date)).Total() + Unmarked(|emps|, |OnDate(att, date)|) == |emps|
  {
    if UniqueKeys(att) && Referenced(att, emps) {
      DayBound(att, emps, date);
      SummaryAddsUp(att, date, |emps|);
    }
  }

  /** Marking out twice for the same day: once the first attempt succeeds, the second conflicts. */
  method MarkOutTwice(h: Hrms, employeeId: Option<string>, date: Option<string>, outTime: Option<string>)
    returns (first: Result<AttendanceView, Error>, second: Result<AttendanceView, Error>)
    requires h.Valid()
    modifies h
    ensures first.Ok? ==> second == Err(AlreadyMarkedOut)
  {
    first := h.MarkOut(employeeId, date, outTime);
    second := h.MarkOut(employeeId, date, outTime);
  }

  /** An absence can still be marked out: the pending absence passes the conflict check, and
      the record ends as an early exit or stays absent. */
  method AbsentThenOut(h: Hrms, employeeId: Option<string>, date: Option<string>, outTime: Option<string>)
    returns (absent: Result<AttendanceView, Error>, out: Result<AttendanceView, Error>)
    requires h.Valid()
    modifies h
    ensures absent.Ok? && Given(outTime) ==> out.Ok? || out == Err(InvalidTime)
    ensures absent.Ok? && out.Ok? ==> out.value.status in {Label(EarlyExit), Label(Absent)}
  {
    absent := h.MarkAbsent(employeeId, date);
    out := h.MarkOut(employeeId, date, outTime);
  }
}
