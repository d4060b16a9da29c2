/** The attendance status rules of the mark-in and mark-out handlers, on one record. */
module AttendanceRules {
  import opened Wrappers
  import opened Clock

  /** The six statuses a record can carry. */
  datatype Status = Incomplete | Present | Late | EarlyExit | LateAndEarlyExit | Absent

  /** The label stored in a record and shown to clients. */
  function Label(s: Status): string {
    match s
    case Incomplete => "Incomplete"
    case Present => "Present"
    case Late => "Late"
    case EarlyExit => "Early Exit"
    case LateAndEarlyExit => "Late & Early Exit"
    case Absent => "Absent"
  }

  lemma LabelInjective(a: Status, b: Status)
    ensures Label(a) == Label(b) ==> a == b
  {
  }

  /** Minutes after the shift start that still count as on time. */
  const GraceMinutes: int := 15

  /** One attendance record, keyed by (employee id, date). Times are kept as the strings given. */
  datatype Record = Record(
    employeeId: string,
    date: string,
    inTime: Option<string>,
    outTime: Option<string>,
    status: Status)

  /** End of the grace window, wrapping past midnight. */
  function GraceEnd(shiftStart: MinuteOfDay): MinuteOfDay {
    AddMinutes(shiftStart, GraceMinutes)
  }

  /** Status given on arrival: late when strictly after the end of the grace window. */
  function ArrivalStatus(inTime: MinuteOfDay, shiftStart: MinuteOfDay): (st: Status)
    ensures st == Incomplete || st == Late
  {
    if inTime > GraceEnd(shiftStart) then Late else Incomplete
  }

  /** For a shift starting before 23:45, arrival is late exactly when more than 15 minutes
      after the shift start; arriving at the end of the grace window is on time. */
  lemma ArrivalLateIff(inTime: MinuteOfDay, shiftStart: MinuteOfDay)
    requires shiftStart + GraceMinutes < MinutesPerDay
    ensures ArrivalStatus(inTime, shiftStart) == Late <==> inTime - shiftStart > GraceMinutes
    ensures inTime == shiftStart + GraceMinutes ==> ArrivalStatus(inTime, shiftStart) == Incomplete
  {
  }

  /** For a shift starting at 23:45 or later the grace window ends after midnight, so the
      comparison is against an early-morning time: every arrival later than that is late,
      including one a few minutes after the shift start. */
  lemma ArrivalWrapsPastMidnight(inTime: MinuteOfDay, shiftStart: MinuteOfDay)
    requires shiftStart + GraceMinutes >= MinutesPerDay
    ensures ArrivalStatus(inTime, shiftStart) == Late <==>
      inTime > shiftStart + GraceMinutes - MinutesPerDay
    ensures shiftStart < inTime ==> ArrivalStatus(inTime, shiftStart) == Late
  {
  }

  /** Arriving later never improves the status. */
  lemma ArrivalMonotone(t1: MinuteOfDay, t2: MinuteOfDay, shiftStart: MinuteOfDay)
    requires t1 <= t2 && ArrivalStatus(t1, shiftStart) == Late
    ensures ArrivalStatus(t2, shiftStart) == Late
  {
  }

  /** Status after departure. Leaving strictly before the shift end is an early exit
      (combined with lateness when the record was late); leaving at or after the shift end
      completes an incomplete record and keeps every other status. */
  function DepartureStatus(current: Status, outTime: MinuteOfDay, shiftEnd: MinuteOfDay): (st: Status)
    ensures st != Incomplete
    ensures outTime < shiftEnd ==> st == EarlyExit || st == LateAndEarlyExit
    ensures outTime >= shiftEnd ==> st == current || (current == Incomplete && st == Present)
  {
    if outTime < shiftEnd then
      if current == Late then LateAndEarlyExit else EarlyExit
    else if current == Incomplete then Present
    else current
  }

  /** The transition table, for the statuses a record can have before departure. */
  lemma DepartureTable(current: Status, outTime: MinuteOfDay, shiftEnd: MinuteOfDay)
    requires current in {Incomplete, Late, Absent}
    ensures var st := DepartureStatus(current, outTime, shiftEnd);
      && (current == Incomplete ==> st == (if outTime < shiftEnd then EarlyExit else Present))
      && (current == Late ==> st == (if outTime < shiftEnd then LateAndEarlyExit else Late))
      && (current == Absent ==> st == (if outTime < shiftEnd then EarlyExit else Absent))
  {
  }

  /** Lateness survives departure: a late record stays late (alone or with an early exit),
      and no other pending record becomes late. */
  lemma DepartureKeepsLateness(current: Status, outTime: MinuteOfDay, shiftEnd: MinuteOfDay)
    requires current in {Incomplete, Late, Absent}
    ensures DepartureStatus(current, outTime, shiftEnd) in {Late, LateAndEarlyExit} <==> current == Late
  {
  }

  /** A string value is present and non-empty, i.e. truthy in Python. */
  predicate Given(v: Option<string>) {
    v.Some? && v.value != []
  }

  /** The shapes a stored record can have. Records are created pending (no departure time)
      as incomplete, late or absent; departure sets a non-empty time and one of the statuses
      `DepartureStatus` yields; only an absence has no arrival time, and stays without one. */
  predicate WellFormed(r: Record) {
    && (r.outTime.Some? ==> Given(r.outTime))
    && (r.inTime.Some? ==> Given(r.inTime))
    && (r.outTime.None? ==> r.status in {Incomplete, Late, Absent})
    && (r.status == Incomplete ==> r.outTime.None?)
    && (r.status == Absent ==> r.inTime.None?)
    && (r.inTime.None? ==> r.status in {Absent, EarlyExit})
  }

  /** A record as created by mark-in. */
  function ArrivalRecord(employeeId: string, date: string, inTime: string, inMinute: MinuteOfDay,
                         shiftStart: MinuteOfDay): (r: Record)
    requires inTime != []
    ensures WellFormed(r) && r.outTime.None? && r.inTime == Some(inTime)
    ensures r.employeeId == employeeId && r.date == date
    ensures r.status == Late <==> inMinute > GraceEnd(shiftStart)
  {
    Record(employeeId, date, Some(inTime), None, ArrivalStatus(inMinute, shiftStart))
  }

  /** A record as created by mark-absent. */
  function AbsentRecord(employeeId: string, date: string): (r: Record)
    ensures WellFormed(r) && r.status == Absent
    ensures r.inTime.None? && r.outTime.None?
    ensures r.employeeId == employeeId && r.date == date
  {
    Record(employeeId, date, None, None, Absent)
  }

  /** A record as updated by mark-out: only the departure time and the status change. */
  function Departed(r: Record, outTime: string, outMinute: MinuteOfDay, shiftEnd: MinuteOfDay): (d: Record)
    ensures d.employeeId == r.employeeId && d.date == r.date && d.inTime == r.inTime
    ensures d.outTime == Some(outTime)
    ensures d.status == DepartureStatus(r.status, outMinute, shiftEnd)
  {
    r.(outTime := Some(outTime), status := DepartureStatus(r.status, outMinute, shiftEnd))
  }

  /** Departure keeps a pending well-formed record well formed, and leaves it no longer pending. */
  lemma DepartedWellFormed(r: Record, outTime: string, outMinute: MinuteOfDay, shiftEnd: MinuteOfDay)
    requires WellFormed(r) && r.outTime.None? && outTime != []
    ensures WellFormed(Departed(r, outTime, outMinute, shiftEnd))
    ensures Given(Departed(r, outTime, outMinute, shiftEnd).outTime)
  {
  }

  /** The worked examples of a 09:00-18:00 shift. */
  lemma ShiftExamples()
    ensures ArrivalStatus(9 * 60 + 10, 9 * 60) == Incomplete
    ensures ArrivalStatus(9 * 60 + 20, 9 * 60) == Late
    ensures DepartureStatus(Incomplete, 17 * 60 + 30, 18 * 60) == EarlyExit
    ensures DepartureStatus(Incomplete, 18 * 60 + 5, 18 * 60) == Present
    ensures DepartureStatus(Late, 17 * 60, 18 * 60) == LateAndEarlyExit
    ensures DepartureStatus(Late, 18 * 60 + 30, 18 * 60) == Late
  {
  }
}
