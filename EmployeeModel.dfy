/** The employee request body (`EmployeeCreate`) and its validation. */
module EmployeeModel {
  import opened Wrappers
  import opened Text
  import opened Validation

  /** Default shift bounds, as "HH:MM" strings. */
  const DefaultShiftStart: string := "09:00"
  const DefaultShiftEnd: string := "18:00"

  /** Minimum length of a full name and of a department, after stripping. */
  const NameMinLength: nat := 2

  /** A validated employee request body. An E-mail is carried as given. */
  datatype EmployeeCreate = EmployeeCreate(
    employeeId: string,
    fullName: string,
    email: string,
    department: string,
    shiftStartTime: string,
    shiftEndTime: string)

  /** Validate the body of an add-employee request. A shift field that is left out (`None`)
      takes its default; a given shift string is kept as is, unchecked. All failing fields
      are reported together. */
  function CreateEmployee(employeeId: string, fullName: string, email: string, department: string,
                          shiftStartTime: Option<string>, shiftEndTime: Option<string>)
    : (r: Result<EmployeeCreate, seq<FieldError>>)
    ensures r.Ok? <==>
      CheckField("employee_id", employeeId, 0).Ok? &&
      CheckField("full_name", fullName, NameMinLength).Ok? &&
      CheckField("department", department, NameMinLength).Ok?
    ensures r.Ok? ==>
      r.value.employeeId == Strip(employeeId) && r.value.fullName == Strip(fullName) &&
      r.value.department == Strip(department) && r.value.email == email
    ensures r.Ok? ==>
      r.value.employeeId != [] &&
      |r.value.fullName| >= NameMinLength && |r.value.department| >= NameMinLength
    ensures r.Ok? ==>
      r.value.shiftStartTime == shiftStartTime.GetOr(DefaultShiftStart) &&
      r.value.shiftEndTime == shiftEndTime.GetOr(DefaultShiftEnd)
    ensures r.Err? ==>
      ((exists e :: e in r.error && e.field == "employee_id") <==> CheckField("employee_id", employeeId, 0).Err?)
    ensures r.Err? ==>
      ((exists e :: e in r.error && e.field == "full_name") <==> CheckField("full_name", fullName, NameMinLength).Err?)
    ensures r.Err? ==>
      ((exists e :: e in r.error && e.field == "department") <==> CheckField("department", department, NameMinLength).Err?)
    ensures r.Err? ==>
      r.error != [] &&
      forall e :: e in r.error ==> e.field == "employee_id" || e.field == "full_name" || e.field == "department"
  {
    var id := CheckField("employee_id", employeeId, 0);
    var name := CheckField("full_name", fullName, NameMinLength);
    var dept := CheckField("department", department, NameMinLength);
    if id.Ok? && name.Ok? && dept.Ok? then
      Ok(EmployeeCreate(id.value, name.value, email, dept.value,
                        shiftStartTime.GetOr(DefaultShiftStart), shiftEndTime.GetOr(DefaultShiftEnd)))
    else
      Err(EmployeeErrors(id, name, dept))
  }

  /** The report of the three field checks, in declaration order: it names exactly the fields
      that failed, and it is empty only when all three passed. */
  function EmployeeErrors(id: Result<string, FieldError>, name: Result<string, FieldError>,
                          dept: Result<string, FieldError>): (errs: seq<FieldError>)
    requires id.Err? ==> id.error.field == "employee_id"
    requires name.Err? ==> name.error.field == "full_name"
    requires dept.Err? ==> dept.error.field == "department"
    ensures (exists e :: e in errs && e.field == "employee_id") <==> id.Err?
    ensures (exists e :: e in errs && e.field == "full_name") <==> name.Err?
    ensures (exists e :: e in errs && e.field == "department") <==> dept.Err?
    ensures errs == [] <==> id.Ok? && name.Ok? && dept.Ok?
    ensures forall e :: e in errs ==> e.field == "employee_id" || e.field == "full_name" || e.field == "department"
  {
    var errs := ErrorOf(id) + ErrorOf(name) + ErrorOf(dept);
    assert |"employee_id"| == 11 && |"full_name"| == 9 && |"department"| == 10;
    assert forall e :: e in errs ==>
      (id.Err? && e == id.error) || (name.Err? && e == name.error) || (dept.Err? && e == dept.error);
    assert id.Err? ==> id.error in errs;
    assert name.Err? ==> name.error in errs;
    assert dept.Err? ==> dept.error in errs;
    errs
  }

  /** `employee_id` has no length rule: any value with one non-blank character is accepted,
      where a name or department needs two characters once stripped. */
  lemma IdNeedsOnlyOneCharacter(v: string)
    ensures CheckField("employee_id", v, 0).Ok? <==> !AllSpace(v)
    ensures CheckField("full_name", v, NameMinLength).Ok? <==> |Strip(v)| >= NameMinLength
  {
    StripEmptyIff(v);
  }
}
