/** Employee documents as stored, and their serialisation by the employee routes. */
module Employees {
  import opened Wrappers
  import opened EmployeeModel

  /** A stored employee document. The shift fields may be missing from a document. */
  datatype Employee = Employee(
    employeeId: string,
    fullName: string,
    email: string,
    department: string,
    shiftStartTime: Option<string>,
    shiftEndTime: Option<string>)

  /** The document inserted for a validated request body (`model_dump`): every field is set. */
  function Stored(c: EmployeeCreate): (e: Employee)
    ensures e.shiftStartTime.Some? && e.shiftEndTime.Some?
  {
    Employee(c.employeeId, c.fullName, c.email, c.department, Some(c.shiftStartTime), Some(c.shiftEndTime))
  }

  /** The employee as returned to clients (without the database's object id). */
  datatype EmployeeView = EmployeeView(
    employeeId: string,
    fullName: string,
    email: string,
    department: string,
    shiftStartTime: string,
    shiftEndTime: string)

  /** Shift start of an employee, "09:00" when the document has none. */
  function ShiftStart(e: Employee): string {
    e.shiftStartTime.GetOr(DefaultShiftStart)
  }

  /** Shift end of an employee, "18:00" when the document has none. */
  function ShiftEnd(e: Employee): string {
    e.shiftEndTime.GetOr(DefaultShiftEnd)
  }

  function Serialize(e: Employee): (v: EmployeeView)
    ensures v.employeeId == e.employeeId && v.email == e.email
    ensures v.fullName == e.fullName && v.department == e.department
  {
    EmployeeView(e.employeeId, e.fullName, e.email, e.department, ShiftStart(e), ShiftEnd(e))
  }

  /** Missing shift fields read as 09:00 and 18:00; stored ones are returned as stored. */
  lemma SerializeDefaults(e: Employee)
    ensures e.shiftStartTime.None? ==> Serialize(e).shiftStartTime == "09:00"
    ensures e.shiftEndTime.None? ==> Serialize(e).shiftEndTime == "18:00"
    ensures e.shiftStartTime.Some? ==> Serialize(e).shiftStartTime == e.shiftStartTime.value
    ensures e.shiftEndTime.Some? ==> Serialize(e).shiftEndTime == e.shiftEndTime.value
  {
  }

  /** Serialising the document stored for a request body gives back that body. */
  lemma SerializeStored(c: EmployeeCreate)
    ensures var v := Serialize(Stored(c));
      v == EmployeeView(c.employeeId, c.fullName, c.email, c.department, c.shiftStartTime, c.shiftEndTime)
  {
  }
}
