# HRMS backend attendance and employee core, in Dafny

This project models the decision logic of a small HRMS (human-resources) backend. The backend
is a web service over two collections:

- **employees**: id, full name, E-mail, department, and the shift start and end times;
- **attendance**: one record per employee and date, with arrival and departure times and a
  status.

The model keeps both collections as sequences in storage order, fields of the class
`Backend.Hrms`. Each route handler becomes one method of that class:

- **mark-in** creates a record. It is `Incomplete`, or `Late` when the arrival is strictly after
  the shift start plus a 15-minute grace window. The grace end wraps past midnight.
- **mark-out** sets the departure time and recomputes the status against the shift end.
- **mark-absent** creates an `Absent` record.
- **add employee** checks the employee id for a duplicate, then the E-mail.
- **delete employee** first removes that employee's attendance records, then the employee.
- **the listings** query, filter and sort by date, newest first.
- **the dashboard summary** collects the day's records. It then counts them into five buckets by
  first substring match (Present, Absent, Late, Early Exit, Incomplete), and computes
  `unmarked = max(0, employees - records)`.

The request validators of the employee and admin bodies are pure functions over strings.
They follow Python's `str.strip`, and `"..." in s` is modelled as substring search. Times are
minutes of the day (`0..1439`), parsed from strict two-digit `HH:MM`. Every handler that can fail
returns `Ok(value)` or an `Error`, and `Backend.Code` maps each error to the HTTP status code the
service answers with.

The class invariant `Valid()` is the set of unique indexes: employee id, E-mail, and
(employee id, date). It also includes the shapes a stored record can take. `Integrity()`
(every record belongs to a stored employee) is kept separately. Every handler preserves it,
and the dashboard total relies on it.

Source paths below are relative to the repository root.

Mark-out refuses only a record whose `out_time` is set (routes/attendance.py:103-104). An
absence has none, so it can be marked out: it becomes `Early Exit` before the shift end and
stays `Absent` otherwise. `Backend.AbsentThenOut` states this.

## Model

| member | source | states |
|---|---|---|
| `Clock.ParseFormat` | routes/attendance.py:21-23 | Parsing the formatted form of any minute of the day gives that minute back. |
| `Clock.FormatParse` | routes/attendance.py:21-23 | Every string that parses is the formatted form of its value, so the parse accepts exactly the canonical `HH:MM` strings. |
| `Clock.FormatTime` | routes/attendance.py:21-23 | The formatted time is five characters with a colon in the middle. |
| `Clock.AddMinutes` | routes/attendance.py:26-30 | The result is a minute of the day congruent to `t + minutes` modulo 1440. |
| `Clock.AddMinutesWraps` | routes/attendance.py:26-30 | Below a day's worth of minutes, the sum is exact while it stays before midnight and wraps by 1440 after. |
| `Clock.GraceEndPastMidnight` | routes/attendance.py:26-30 | A 23:50 shift start has its grace end at 00:05. |
| `Clock.DigitChar` | routes/attendance.py:21-23 | Helper of `Clock.FormatTime` and the round-trip lemmas: each digit value has a digit character that reads back as that value. |
| `AttendanceRules.LabelInjective` | routes/attendance.py:67-69 | The six status labels are distinct strings. |
| `AttendanceRules.ArrivalStatus` | routes/attendance.py:63-69 | Arrival gives `Incomplete` or `Late`, and nothing else. |
| `AttendanceRules.ArrivalLateIff` | routes/attendance.py:56-69 | For a shift starting before 23:45, arrival is late exactly when it is more than 15 minutes after the start. Arriving exactly at the grace end is not late. |
| `AttendanceRules.ArrivalWrapsPastMidnight` | routes/attendance.py:26-30 | When the grace end wraps past midnight, only arrivals after the wrapped grace end are late. So any arrival after a late-evening shift start is late. |
| `AttendanceRules.ArrivalMonotone` | routes/attendance.py:68-69 | Arriving later than a late arrival is also late. |
| `AttendanceRules.DepartureStatus` | routes/attendance.py:117-130 | Departure never leaves `Incomplete`. Before the shift end it gives an early exit. From the shift end on it keeps the status, except that `Incomplete` becomes `Present`. |
| `AttendanceRules.DepartureTable` | routes/attendance.py:117-130 | The full transition table for the pending statuses: Incomplete, Late, Absent, each against early and not early. Leaving exactly at the shift end is not early. |
| `AttendanceRules.DepartureKeepsLateness` | routes/attendance.py:121-130 | After departure, a status records lateness exactly when the arrival was late. |
| `AttendanceRules.ArrivalRecord` | routes/attendance.py:71-77 | The mark-in record has the given key and arrival time and no departure. It is late exactly when the arrival is after the grace end, and it is well formed. |
| `AttendanceRules.AbsentRecord` | routes/attendance.py:157-163 | The mark-absent record has the given key, status `Absent`, no arrival and no departure time, and is well formed. |
| `AttendanceRules.Departed` | routes/attendance.py:132-135 | Mark-out changes only the departure time and the status. The key and the arrival time stay, and the new status is the departure status of the old one. |
| `AttendanceRules.DepartedWellFormed` | routes/attendance.py:103-135 | Departing a pending well-formed record gives a well-formed record whose departure time is set. |
| `AttendanceRules.ShiftExamples` | routes/attendance.py:56-130 | Worked arrivals and departures for a 09:00-18:00 shift. |
| `Text.TrimStart` | models/employee.py:16-18 | Left stripping drops exactly a leading run of Python whitespace. The rest does not start with whitespace. |
| `Text.TrimEnd` | models/employee.py:16-18 | Right stripping drops exactly a trailing run of Python whitespace. The rest does not end with whitespace. |
| `Text.StripSlice` | models/employee.py:16-18 | `strip` returns the contiguous slice that starts after the leading whitespace. |
| `Text.StripTrailing` | models/employee.py:16-18 | What `strip` drops after that slice is whitespace only. |
| `Text.SliceOfSuffix` | models/employee.py:16-18 | Helper of `Text.StripSlice` and `Text.StripTrailing`: a prefix of a suffix is the matching inner slice of the original string. |
| `Text.StripEnds` | models/employee.py:16-18 | A stripped string neither starts nor ends with whitespace. |
| `Text.StripEmptyIff` | models/employee.py:16 | `strip` gives the empty string exactly when the string is empty or all whitespace. |
| `Text.StripIdempotent` | models/employee.py:18 | Stripping twice is stripping once. |
| `Text.StripUnchanged` | models/employee.py:18 | A string without whitespace at either end is left unchanged. |
| `Text.ContainsPrefix` | routes/dashboard.py:29-38 | A string contains each of its prefixes. |
| `Text.ContainsFirstChar` | routes/dashboard.py:29-38 | A string that contains a non-empty pattern contains its first character. |
| `Text.LexLessAsymmetric` | routes/attendance.py:176 | The string order used for sorting dates is asymmetric. |
| `Text.LexLessTotal` | routes/attendance.py:176 | Of two different strings, one is less than the other. |
| `Text.LexLessTransitive` | routes/attendance.py:176 | The string order is transitive. |
| `Text.NotLessTransitive` | routes/attendance.py:176 | "Not less than" is transitive, as sorting needs. |
| `Validation.NotEmpty` | models/employee.py:13-18 | A value is rejected as blank exactly when it is all whitespace. An accepted value is returned stripped and non-empty. |
| `Validation.MinLength` | models/employee.py:20-25 | A value is accepted exactly when it has at least `n` characters, and it is passed on unchanged. |
| `Validation.CheckField` | models/employee.py:13-25 | A field is accepted exactly when its stripped value is non-empty and long enough. The error names the field, and it is "blank" exactly when the stripped value is empty. |
| `Validation.ErrorOf` | models/employee.py:13-25 | A field contributes no error when accepted, and its one error otherwise. |
| `EmployeeModel.EmployeeErrors` | models/employee.py:13-25 | The report of the three field checks names exactly the failed fields, no other field, and is empty only when all three passed. |
| `EmployeeModel.CreateEmployee` | models/employee.py:5-25 | The body is accepted exactly when the id is non-blank and the stripped name and department have at least 2 characters. Accepted values are stripped, the E-mail is kept, and the shift times default to 09:00 and 18:00. A rejection names exactly the fields whose checks failed, and no other field. |
| `EmployeeModel.IdNeedsOnlyOneCharacter` | models/employee.py:13-25 | An id needs just one non-blank character, while a name needs two once stripped. |
| `AdminModel.CreateAdmin` | models/admin.py:5-22 | The admin body is accepted exactly when the username is non-blank and the stripped password has at least 6 characters. Both are kept stripped, and the full name defaults to "Admin". A rejection names exactly the fields whose checks failed, and a blank password is reported as blank. |
| `AdminModel.AdminErrors` | models/admin.py:10-22 | The report of the two field checks names exactly the failed fields, carries each failing check's error, and is empty only when both passed. |
| `Employees.Stored` | routes/employees.py:38 | The document inserted for a validated body has both shift fields set. |
| `Employees.Serialize` | routes/employees.py:8-17 | Serialisation keeps the employee id, full name, E-mail and department; the shift fields are given by `Employees.SerializeDefaults`. |
| `Employees.SerializeDefaults` | routes/employees.py:15-16 | Missing shift fields read as 09:00 and 18:00. Stored ones are returned as stored. |
| `Employees.SerializeStored` | routes/employees.py:38-40 | The document stored for a body serialises back to that body. |
| `Queries.FindEmployeeFrom` | routes/attendance.py:44 | The lookup from a position returns the first matching index at or after it, or reports that none matches. |
| `Queries.FindEmployee` | routes/attendance.py:44 | `find_one` by employee id returns the first document with that id, or none exactly when no document has it. |
| `Queries.FindEmailFrom` | routes/employees.py:31 | The lookup by E-mail from a position returns the first matching index at or after it, or reports that none matches. |
| `Queries.FindEmail` | routes/employees.py:31 | `find_one` by E-mail returns the first document with that E-mail, or none exactly when no document has it. |
| `Queries.EmployeeIds` | routes/dashboard.py:14 | The id of every stored employee is in the set of ids. |
| `Queries.EmployeeIdsFind` | routes/attendance.py:44-46 | An id is in the set exactly when the lookup finds it. |
| `Queries.EmployeeIdsBound` | routes/dashboard.py:14 | Helper of the dashboard bound: there are no more distinct ids than documents. |
| `Queries.RemoveAt` | routes/employees.py:62 | `delete_one` at a position keeps every other document, in order. |
| `Queries.RemoveEmployeeIds` | routes/employees.py:62 | Removing the only document with an id removes exactly that id from the set of ids. |
| `Queries.RemoveKeepsOtherIds` | routes/employees.py:62 | Every other id survives the removal. |
| `Queries.RemoveDropsId` | routes/employees.py:62 | The removed id is gone, and no id is added. |
| `Queries.RemoveEmployeeUnique` | routes/employees.py:62 | The ids and E-mails stay unique after a removal. |
| `Queries.FindRecordFrom` | routes/attendance.py:49-52 | The lookup by (employee id, date) from a position returns the first matching index at or after it, or reports that none matches. |
| `Queries.FindRecord` | routes/attendance.py:49-52 | `find_one` by (employee id, date) returns the first matching record, or none exactly when there is no match. |
| `Queries.FindRecordAfterUpdate` | routes/attendance.py:132-135 | Updating a record in place without changing its key leaves every lookup where it was. |
| `Queries.FindRecordAppend` | routes/attendance.py:49-54 | A record inserted under a new key is what the lookup then finds for that key. |
| `Queries.WithoutEmployee` | routes/employees.py:60 | `delete_many` by employee id keeps exactly the records of the other employees. |
| `Queries.WithoutEmployeeUnique` | routes/employees.py:60 | The cascade delete keeps one record per (employee id, date). |
| `Queries.PrependUnique` | routes/employees.py:60 | Putting a record with a new key in front keeps the keys unique. |
| `Queries.Select` | routes/attendance.py:172-176 | The query returns exactly the stored records that match the filter: the date when non-empty, the employee id when given. |
| `Queries.InsertByDate` | routes/attendance.py:176 | Insertion into the sorted sequence adds exactly the one record. |
| `Queries.InsertByDateNewestFirst` | routes/attendance.py:176 | Inserting into a newest-first sequence keeps it newest first. |
| `Queries.PrependNewest` | routes/attendance.py:176 | A record no older than the rest can go in front of a newest-first sequence. |
| `Queries.HeadNewest` | routes/attendance.py:176 | The head of a newest-first sequence is no older than the rest, and the rest is newest first. |
| `Queries.SortByDateDesc` | routes/attendance.py:176 | The sort is a permutation of its input. |
| `Queries.SortByDateDescNewestFirst` | routes/attendance.py:176 | The sorted records are in descending date order. |
| `Queries.Listing` | routes/attendance.py:170-192 | A listing holds exactly the matching stored records, each as often as the query found it, newest first. |
| `Dashboard.ClassifyLabel` | routes/dashboard.py:27-38 | First-match substring classification of each status label gives one fixed bucket per status. In particular, "Late & Early Exit" is counted as late. |
| `Dashboard.ClassifyPresent` | routes/dashboard.py:29-30 | "Present" lands in the present bucket. |
| `Dashboard.ClassifyAbsent` | routes/dashboard.py:31-32 | "Absent" lands in the absent bucket. |
| `Dashboard.ClassifyLate` | routes/dashboard.py:33-34 | "Late" lands in the late bucket. |
| `Dashboard.ClassifyLateAndEarlyExit` | routes/dashboard.py:33-36 | "Late & Early Exit" lands in the late bucket, because "Late" is checked before "Early Exit". |
| `Dashboard.ClassifyEarlyExit` | routes/dashboard.py:35-36 | "Early Exit" lands in the early-exit bucket. |
| `Dashboard.ClassifyIncomplete` | routes/dashboard.py:37-38 | "Incomplete" lands in the incomplete bucket. |
| `Dashboard.ClassifyMissing` | routes/dashboard.py:28 | A missing status reads as "" and lands in no bucket. |
| `Dashboard.BumpTotal` | routes/dashboard.py:27-38 | A record adds one to the total of the counters, unless it fits no bucket. |
| `Dashboard.TallyTotal` | routes/dashboard.py:27-38 | Every status lands in one bucket, so the five counters add up to the number of records. |
| `Dashboard.TallyLast` | routes/dashboard.py:27-38 | Each record adds exactly one to the total. |
| `Dashboard.TallyAppend` | routes/dashboard.py:27-38 | Counting one more record bumps the counter of its bucket. |
| `Dashboard.OnDate` | routes/dashboard.py:17-19 | The day's records number at most the stored records. |
| `Dashboard.OnDateIsSelect` | routes/dashboard.py:18 | For a non-empty date, the dashboard's day query selects the same records, in the same order, as the listing query `Queries.Select` with that date. |
| `Dashboard.OnDateMembers` | routes/dashboard.py:17-19 | Exactly the records of the requested date are collected. |
| `Dashboard.OnDateAppend` | routes/dashboard.py:17-19 | One more stored record is collected exactly when it has the requested date. |
| `Dashboard.Unmarked` | routes/dashboard.py:41-42 | `max(0, total - marked)`: never negative, at least `total - marked`, and exactly that unless it is zero. |
| `Dashboard.CountRecord` | routes/dashboard.py:28-38 | One pass of the if-chain over a record's status label adds one to the counter of its bucket. |
| `Dashboard.Summarize` | routes/dashboard.py:7-55 | The summary date is the given date, or today when none or an empty one is given. The collecting loop finds the day's records, the counting loop tallies them, and unmarked is `max(0, employees - records)`. |
| `Dashboard.SummaryAddsUp` | routes/dashboard.py:27-42 | With at most as many records for the day as employees, the five counters plus unmarked equal the number of employees. |
| `Backend.Code` | routes/attendance.py:40-109 | Missing fields give 400, a missing employee or record 404, a conflict 409, a body that fails validation 422, and a time that does not parse 500. |
| `Backend.ViewAll` | routes/attendance.py:175-177 | The listing loop serialises every record of the query result, in order. |
| `Backend.DayIds` | routes/dashboard.py:17-19 | The ids with a record on a date are exactly the ids of the stored records of that date. |
| `Backend.DayIdsCount` | routes/dashboard.py:17-19 | With one record per (employee id, date), a day has as many records as employee ids. |
| `Backend.SubsetSize` | routes/dashboard.py:41-42 | Helper of `Backend.DayBound`: a subset has no more elements than its superset. |
| `Backend.DayBound` | routes/dashboard.py:41-42 | When the store keeps its unique key and every record belongs to an employee, no day has more records than there are employees. |
| `Backend.DayBoundIf` | routes/dashboard.py:27-42 | Under those invariants, the dashboard counters plus unmarked equal the number of employees. |
| `Backend.DeleteKeepsShapes` | routes/employees.py:60-62 | After the cascade delete, the remaining records are well formed and belong to remaining employees. |
| `Backend.AppendEmployeeIds` | routes/employees.py:38 | Inserting a document with a new id and a new E-mail adds exactly its id, and keeps both unique. |
| `Backend.Hrms.constructor` | database.py:15-17 | The store starts with both collections empty, and its invariants hold. |
| `Backend.Hrms.MarkIn` | routes/attendance.py:33-81 | Failures come in order: 400 for a missing or empty field, 404 for an unknown employee, 409 for an existing record, 500 for a time that does not parse. A failure leaves the store unchanged. On success, exactly the arrival record is appended (default shift start 09:00), the lookup for the key now finds it, and the invariants hold. |
| `Backend.Hrms.MarkOut` | routes/attendance.py:84-138 | Failures come in order: 400, then 404 for no record, then 409 for a departure time already set, and only then 404 for an unknown employee. Under `Integrity()` that last case cannot happen. A time that does not parse gives 500, and a failure changes nothing. On success, only the matched record changes, by `Departed` (default shift end 18:00). The key still finds it, now with its departure time set. |
| `Backend.Hrms.MarkAbsent` | routes/attendance.py:141-167 | Failures come in order: 400, 404 for an unknown employee, 409 for an existing record, and a failure changes nothing. On success, exactly the absence record is appended. |
| `Backend.Hrms.GetAllAttendance` | routes/attendance.py:170-178 | Returns the serialised listing of all records, or of the given non-empty date, newest first. |
| `Backend.Hrms.GetAttendanceByEmployee` | routes/attendance.py:181-192 | Returns the serialised listing of one employee's records, possibly of one date, newest first. |
| `Backend.Hrms.AddEmployee` | routes/employees.py:20-40 | A body that fails validation gives 422. The id is checked for a duplicate (409) before the E-mail (409), and a failure changes nothing. On success, exactly the stored document is appended, the ids grow by its id, and ids and E-mails stay unique. |
| `Backend.Hrms.ListEmployees` | routes/employees.py:43-48 | Returns one serialised entry per stored employee, in storage order. |
| `Backend.Hrms.DeleteEmployee` | routes/employees.py:51-64 | An unknown id gives 404 and changes nothing. Otherwise the employee's records are removed, then the employee; everything else stays, and the success message is returned. |
| `Backend.Hrms.GetDashboardSummary` | routes/dashboard.py:7-55 | The summary over the stored records, for the given date or today. Under the invariants, the counters plus unmarked equal the number of employees. |
| `Backend.MarkOutTwice` | routes/attendance.py:103-104 | Once a mark-out succeeds, a second one for the same key gives 409. |
| `Backend.AbsentThenOut` | routes/attendance.py:100-104 | After a successful absence, a mark-out with a time passes the 404 and 409 checks. It ends as an early exit, or the record stays absent. |

## Left out

- The database and the async plumbing (the driver, object ids, `count_documents`) are left out. The collections are in-memory sequences, and the object id that serialisation adds to every response is not modelled.
- The find-then-insert race between concurrent requests is not modelled. Its only guard is a unique index created by setup.py, and the model has no concurrency.
- `parse_time` follows `datetime.strptime("%H:%M")`, which also accepts single-digit fields such as "9:5". The model accepts only two-digit `HH:MM`. A string it rejects makes the handler fail with 500, as an unparseable time does in the source.
- `date.today()` is not modelled: the dashboard takes `today` as a parameter. `add_minutes` combines with today's date only to add a `timedelta`, which the model does modulo 1440 directly.
- Request bodies of the attendance routes are JSON objects. The model takes each field as an optional string, so a field of another JSON type is not modelled.
- `EmailStr` validation of the employee E-mail is a library call and is not modelled; the E-mail is carried as given. Pydantic also normalises the address (for example, it lower-cases the domain), and the duplicate check at routes/employees.py:31 compares the normalised value. So the service answers 409 for "a@X.io" after "a@x.io", where the model accepts it.
- A missing required field, or a field of another JSON type, is rejected by Pydantic with 422 alongside the other fields' errors. The model takes required fields as strings and defaulted ones as `Option<string>`, so it cannot express that case.
- The admin body's `full_name` may also be sent as an explicit `null`, which Pydantic keeps. The model only distinguishes "left out" (default "Admin") from a given string.
- Status strings that are none of the six labels cannot arise in this store, because every write goes through the model's handlers. `Dashboard.ClassifyMissing` covers only the missing-status case of `rec.get("status", "")`.
- The database leaves the order of records with equal dates open. `Queries.SortByDateDesc` keeps them in storage order, one admissible choice.
- Admin login and info (routes/admin.py) are plain lookups plus a SHA-256 password comparison through `hashlib`, a foreign call. They are not modelled. setup.py (index creation, seeding, salted hashing) and main.py (application wiring, CORS) are not part of this model either.
- models/attendance.py holds only response shapes, and its status list is not used. It is not part of this model.
