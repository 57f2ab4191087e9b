# Student attendance backend — verified model

A Dafny model of the core of a small Express + Mongoose backend for student
attendance. The two MongoDB collections become immutable sequences: the
student directory (`seq<Student>`) and the attendance ledger
(`seq<Record>`). Each route handler becomes a pure function of that state:

- **Student directory** (`StudentModel`, `StudentRoutes`): add with the
  roll-number check over all students, active or not; the list of active
  students sorted by rollNo; update by id; soft delete.
- **Attendance ledger** (`AttendanceModel`, `AttendanceRoutes`): the
  `/mark` loop. It normalises the date to a calendar day, skips incomplete
  entries and upserts one record per (student, day). The `/daily` query is
  modelled too.
- **Aggregation** (`MonthlyReport`, `DashboardRoutes`): the `/monthly`
  pipeline (filter, group by student, join, percentage, sort) and the
  dashboard `/stats` (student total, today's percentage, monthly average).

Supporting modules:

- `Responses`: the 400/404/500 results.
- `Calendar`: abstract calendar days and instants.
- `Rounding`: exact rational `Math.round` (half up) and `$round` (half to
  even).
- `Sorting`: sort by an integer key, plus a lemma that the sorted order is
  forced when keys are distinct.
- `Seqs`: de-duplication and cardinality facts.

Dates are `Instant(day, msOfDay)`. `StartOfDay` is `setHours(0, 0, 0, 0)`.
Percentages use exact integer arithmetic. The monthly percentage is kept in
hundredths of a percent.

Some consequences of the code:

- The monthly report drops groups whose student does not resolve
  (`$unwind` on the joined array).
- The daily report returns an unresolved student as absent (`None`),
  which is what `populate` yields.
- `totalStudents` counts soft-deleted students, because `countDocuments()`
  has no filter.
- The rollNo check on add covers inactive students.

## Model

| member | source | states |
|---|---|---|
| Calendar.StartOfDay | src/routes/attendanceRoutes.js:21-22 | the normalised date is a valid midnight on the same calendar day |
| Calendar.StartOfDayIdempotent | src/routes/attendanceRoutes.js:21-22 | normalising twice is normalising once |
| Calendar.SameKeyIffSameDay | src/routes/attendanceRoutes.js:65-66 | two inputs give the same day key if and only if they fall on the same calendar day, so mark and daily agree |
| Calendar.StartOfDayFixesMidnights | src/routes/attendanceRoutes.js:21-22 | normalisation leaves an instant unchanged exactly when it is already a midnight |
| Rounding.RoundHalfUp | src/routes/dashboardRoutes.js:24-27 | `Math.round(n/d)` is the integer nearest to n/d, with ties rounded up |
| Rounding.RoundHalfUpUnique | src/routes/dashboardRoutes.js:24-27 | that nearest-integer property determines the rounded value uniquely |
| Rounding.RoundHalfEven | src/routes/attendanceRoutes.js:143-153 | `$round` gives the integer nearest to n/d, with ties rounded to the even neighbour |
| Rounding.RoundHalfEvenUnique | src/routes/attendanceRoutes.js:143-153 | the half-even property determines the rounded value uniquely |
| StudentModel.Find | src/routes/attendanceRoutes.js:126-134 | a lookup by id returns a student holding that id, and returns nothing exactly when no student holds it |
| StudentModel.FindUnique | src/routes/attendanceRoutes.js:126-134 | with unique ids, the lookup returns the one student holding the id |
| AttendanceModel.OnDate | src/routes/attendanceRoutes.js:68 | `find({date})` selects the records with that date, each as many times as the ledger holds it, and nothing else |
| AttendanceModel.OfMonth | src/routes/attendanceRoutes.js:97-109 | the month match selects the records dated in that month and year, each as many times as the ledger holds it, and nothing else |
| AttendanceModel.CountStatus | src/routes/attendanceRoutes.js:110-125 | the conditional sum is zero exactly when no record has the status, and never exceeds the number of records |
| AttendanceModel.TallyPartition | src/models/Attendance.js:14-18 | with statuses in the enum, every record is counted in exactly one of present and absent |
| AttendanceModel.TallyAtMost | src/routes/attendanceRoutes.js:110-125 | present plus absent never exceeds the number of records |
| AttendanceModel.OnDateDistinctStudents | src/models/Attendance.js:23-24 | under the unique (studentId, date) index, one day's records belong to distinct students |
| AttendanceModel.OfMonthUnique | src/models/Attendance.js:23-24 | restricting to a month keeps keys unique |
| AttendanceRoutes.Upsert | src/routes/attendanceRoutes.js:29-41 | the upsert leaves exactly one record with the key, holding the new status; every other record keeps its place; a record is appended only when the key was absent; key uniqueness is kept |
| AttendanceRoutes.Apply | src/routes/attendanceRoutes.js:26-44 | the loop returns one document per written entry, all dated on the normalised day; the ledger grows by at most one record per document and never shrinks |
| AttendanceRoutes.MarkAsWritten | src/routes/attendanceRoutes.js:14-46 | mark as the code writes it: rejected exactly when the date is missing or records is not an array |
| AttendanceRoutes.Mark | src/routes/attendanceRoutes.js:14-46 | the corrected mark: the same validation result and 400 message |
| AttendanceRoutes.MarkValidation | src/routes/attendanceRoutes.js:17-19 | a missing date or a non-array records gives the 400 error and no new ledger |
| AttendanceRoutes.MarkSameDay | src/routes/attendanceRoutes.js:21-22 | two dates on the same calendar day produce the same mark, as written and corrected |
| AttendanceRoutes.ApplyFrame | src/routes/attendanceRoutes.js:26-44 | on a ledger with unique keys, the loop keeps keys unique; existing records keep place and key and take the batch's last status for their key; appended records are for written keys that had none; every written key ends up present; if all written keys were present, nothing is appended |
| AttendanceRoutes.ApplySkips | src/routes/attendanceRoutes.js:26-27 | skipped entries have no effect: the loop acts as if only the written entries were sent, and returns one document per written entry, in order |
| AttendanceRoutes.MarkLastWins | src/routes/attendanceRoutes.js:29-41 | after a mark, as written or corrected, keys stay unique and each (student, day) of the batch has exactly one record, holding the last status the loop wrote for it |
| AttendanceRoutes.MarkFrame | src/routes/attendanceRoutes.js:29-41 | for either mark, a record whose key the batch does not write is in the ledger after the mark exactly when it was before |
| AttendanceRoutes.MarkIdempotent | src/routes/attendanceRoutes.js:29-41 | running the same batch again leaves the ledger unchanged |
| AttendanceRoutes.MarkKeepsWellFormed | src/models/Attendance.js:14-24 | the corrected mark keeps keys unique, statuses in the enum and dates normalised |
| AttendanceRoutes.MarkAcceptsDanglingReference | src/models/Attendance.js:5-9 | mark stores a studentId that no student holds; the reference is not checked |
| AttendanceRoutes.MarkAsWrittenStoresUnknownStatus | src/routes/attendanceRoutes.js:29-41 | as written, a status outside the enum is stored |
| AttendanceRoutes.Daily | src/routes/attendanceRoutes.js:60-73 | the daily report fails exactly when the date is missing; it returns the records dated on the normalised day, each as many times as the ledger holds it, and no other; each is joined to its student, or to none when the id does not resolve |
| AttendanceRoutes.DailyAfterMark | src/routes/attendanceRoutes.js:65-71 | after either mark, a daily query on the marked day shows each batch student's record with the last status written |
| MonthlyReport.Percent | src/routes/attendanceRoutes.js:143-153 | the percentage, in hundredths, is at most 100.00 when present is at most total; it is 0 with nobody present and 100.00 when everyone is present; it is the nearest value to present/total, and the even one at a tie |
| MonthlyReport.Groups | src/routes/attendanceRoutes.js:110-125 | there is one group per student id with a record, ids are distinct, each group's tallies are that student's, and total is at least 1 |
| MonthlyReport.Join | src/routes/attendanceRoutes.js:126-134 | each row comes from a group whose student resolves; every such group yields its row; unresolved groups are dropped |
| MonthlyReport.Rows | src/routes/attendanceRoutes.js:97-157 | the report is sorted by rollNo and is a permutation of the joined rows |
| MonthlyReport.Monthly | src/routes/attendanceRoutes.js:89-92 | the report fails exactly when month or year is missing, and is otherwise sorted by rollNo |
| MonthlyReport.MonthlySound | src/routes/attendanceRoutes.js:126-142 | every row is the tally of an existing student who has records in that month |
| MonthlyReport.MonthlyComplete | src/routes/attendanceRoutes.js:104-134 | every existing student, active or not, with a record in that month has its row |
| MonthlyReport.MonthlyRowBounds | src/routes/attendanceRoutes.js:110-153 | every row has total at least 1 and present + absent at most total, with equality when statuses are in the enum; the percentage is between 0 and 100.00; it is 0 when present is 0 and 100.00 when absent is 0 |
| MonthlyReport.MonthlyDistinct | src/routes/attendanceRoutes.js:156 | with unique ids and rollNos, no row repeats and rows strictly ascend by rollNo |
| MonthlyReport.MonthlyOrderForced | src/routes/attendanceRoutes.js:156 | any rollNo-sorted arrangement of the joined rows is the report, so the store's sort order is determined |
| StudentRoutes.Add | src/routes/studentRoutes.js:16-33 | add fails exactly on an empty name, an undefined rollNo, or a rollNo held by any student, active or not, each with its 400 message; a success appends one active student with the given name and rollNo and a fresh id, and changes nothing else |
| StudentRoutes.AddKeepsWellFormed | src/models/Student.js:5-9 | a successful add keeps ids and rollNos unique and names present |
| StudentRoutes.Active | src/routes/studentRoutes.js:51 | `find({isActive: true})` keeps the active students, each as many times as the directory holds it, and no other |
| StudentRoutes.List | src/routes/studentRoutes.js:51 | the list holds exactly the active students, each as often as in the directory, in ascending rollNo order |
| StudentRoutes.ListIsForced | src/routes/studentRoutes.js:51 | with unique rollNos, any rollNo-sorted arrangement of the active students is the list |
| StudentRoutes.Update | src/routes/studentRoutes.js:67-86 | update gives 400 on missing fields and 404 on an unknown id; it fails exactly when another student holds the rollNo, and then with the 500 "Server error" (the unique index rejects the write); a success changes only the target's name and rollNo |
| StudentRoutes.UpdateKeepsWellFormed | src/models/Student.js:6 | a successful update keeps rollNos unique |
| StudentRoutes.UpdateCollisionRejected | src/models/Student.js:6 | updating to a rollNo that another student holds is rejected |
| StudentRoutes.UpdateKeepsIdentity | src/routes/studentRoutes.js:73-80 | the updated student keeps its id and isActive flag and takes the new name and rollNo |
| StudentRoutes.SoftDelete | src/routes/studentRoutes.js:100-106 | delete always acknowledges with "Student removed successfully"; it clears isActive on the first student with the id and leaves every other student as it was; an unknown id changes nothing |
| StudentRoutes.SoftDeleteKeepsWellFormed | src/routes/studentRoutes.js:102-104 | soft delete keeps the directory well formed |
| StudentRoutes.SoftDeleteIdempotent | src/routes/studentRoutes.js:102-104 | deleting twice is deleting once |
| StudentRoutes.SoftDeleteHides | src/routes/studentRoutes.js:51 | a soft-deleted student is not in the list |
| StudentRoutes.SoftDeleteKeepsRollNoReserved | src/routes/studentRoutes.js:22-27 | the soft-deleted record is kept, and its rollNo still blocks a new add |
| StudentRoutes.SoftDeleteShrinksList | src/routes/studentRoutes.js:100-106 | deleting an active student makes the list one shorter than before; deleting an inactive one leaves its length; the list is then shorter than the directory |
| DashboardRoutes.TodayPercentage | src/routes/dashboardRoutes.js:24-27 | 0 with no students; otherwise presentToday*100/totalStudents rounded half up |
| DashboardRoutes.MonthDates | src/routes/dashboardRoutes.js:41-50 | the date groups are the distinct dates of the month's records |
| DashboardRoutes.MonthlyAvgAsWritten | src/routes/dashboardRoutes.js:53-60 | as written: 0 for an empty month; a non-finite value exactly when the month has records and there are no students; otherwise sumPresent*100/(days*students) rounded half up |
| DashboardRoutes.MonthlyAvg | src/routes/dashboardRoutes.js:53-60 | the corrected average: 0 when either divisor is zero, and otherwise equal to the as-written value |
| DashboardRoutes.MonthPresentSum | src/routes/dashboardRoutes.js:33-56 | summing the per-date present counts gives the month's number of present records |
| DashboardRoutes.MonthDays | src/routes/dashboardRoutes.js:54-57 | the number of date groups is at most the month's record count, and zero exactly when the month has no records |
| DashboardRoutes.DashboardStats | src/routes/dashboardRoutes.js:8-66 | totalStudents counts every student; both percentages are 0 with no students; todayPercentage is the nearest integer to 100 times today's present records over the students, ties up; monthlyAvg is the guarded average of the month's present records over (dates × students) |
| DashboardRoutes.DayAtMostRoster | src/models/Attendance.js:23-24 | with unique keys and resolving references, a day has no more present records than there are students |
| DashboardRoutes.TodayAtMost100 | src/routes/dashboardRoutes.js:18-27 | todayPercentage is at most 100 when keys are unique and today's records resolve |
| DashboardRoutes.MonthlyAvgAtMost100 | src/routes/dashboardRoutes.js:53-60 | monthlyAvg is at most 100 when keys are unique and the month's records resolve |
| DashboardRoutes.MonthlyAvgAsWrittenDividesByZero | src/routes/dashboardRoutes.js:53-60 | as written, one record this month and no students give a non-finite average |
| DashboardRoutes.TotalCountsSoftDeleted | src/routes/dashboardRoutes.js:11 | soft delete leaves totalStudents unchanged, while deleting an active student makes the list one shorter |

## Findings

| source | as written | input that shows it | evidently intended | confidence | as-written member | corrected member |
|---|---|---|---|---|---|---|
| src/routes/attendanceRoutes.js:29-41 | the upsert writes `rec.status` as given; `findOneAndUpdate` runs no schema validators unless `runValidators` is set, so the enum is not enforced | `records: [{ studentId: S, status: "late" }]` is stored as "late"; that student's monthly row then has present + absent < total | only "present" or "absent" reach the ledger (src/models/Attendance.js:14-18) | medium, not executed | AttendanceRoutes.MarkAsWrittenStoresUnknownStatus | AttendanceRoutes.MarkKeepsWellFormed |
| src/routes/dashboardRoutes.js:53-60 | only `monthly.length` is guarded before dividing by `monthly.length * totalStudents` | no students, and one attendance record this month (mark accepts any studentId): the quotient is Infinity or NaN, sent as `null` | 0, as `todayPercentage` does with no students | medium, not executed | DashboardRoutes.MonthlyAvgAsWrittenDividesByZero | DashboardRoutes.MonthlyAvg |

Finding 1:

- `AttendanceRoutes.MarkAsWritten` is the code as written.
- `AttendanceRoutes.Mark` is the corrected version: an entry whose status is not in the enum is skipped, like an incomplete entry.
- `StatusesInEnum`, and with it the equality `present + absent == total` in the monthly report, relies on the corrected version. Unique keys, the last-status rule and the frame hold for both.

Finding 2:

- `DashboardRoutes.MonthlyAvgAsWritten` is the code as written.
- `DashboardRoutes.MonthlyAvg` is the corrected version.
- `DashboardRoutes.DashboardStats` uses the corrected version.

## Left out

- Express routing, the auth middleware, CORS, dotenv, `connectDB` and logging are I/O and wiring. HTTP status codes appear only as `Responses.Error` variants.
- The dashboard router is not mounted in `src/index.js`. Its logic is modelled; the mounting is not.
- Time zones are left out: `setHours` works in local time, while `$month`/`$year` use UTC. Both read the abstract calendar day here.
- Parsing `new Date(date)` is left out. A date that does not parse (an Invalid Date) gives a store cast error, which is not modelled. The model starts from an already parsed `Instant`.
- Floating point is left out. Both roundings are stated on the exact rational quotient, so a quotient whose binary approximation falls on the other side of a rounding boundary is not modelled.
- Input coercion is left out: `Number(rollNo)` producing NaN, `Number(month)` of a non-numeric string, and an id string that is not a valid ObjectId (a cast error, 500). rollNo, month, year and ids are integers.
- An optional rollNo is `None` only when it is `undefined`, the one case add and update reject. A falsy rollNo such as `0` passes. A `null` rollNo also passes, and `Number(null)` turns it into 0. The model takes such a request as `Some(0)`, and the `null` → 0 coercion itself is not modelled. For `name`, `date`, `month` and `year`, `None` (or `""`) stands for any falsy value, as the handlers test them. `records` is `None` when it is not an array.
- A `null` element of `records` is left out. `rec.studentId` then throws and the handler answers 500, after the entries before it were written. `Entry` always stands for an object.
- Concurrency is left out: the read-then-write races on the rollNo check and on the upsert. Every call runs alone.
- Store failures are left out, including a failure in the middle of the mark loop, which would leave earlier entries written. The one exception is the unique-index rejection of a colliding rollNo on update.
- `populate` projections, `$lookup` mechanics, `createdAt`/`updatedAt` timestamps and the record `_id`s are left out. Only the fields the logic reads are modelled.
- Generation of new student ids is left out. `StudentModel.FreshId` stands in for it by picking an id that no student holds.
- MonthlyReport.MonthlyRowBounds: states `present + absent == total` only when every status is in the enum. The as-written mark can store other statuses, so otherwise it states only `<=`.
- MonthlyReport.MonthlyComplete: assumes unique student ids, which the store's `_id` guarantees; with duplicate ids only the first student would be joined.
- DashboardRoutes.TodayAtMost100: holds only when today's records all resolve to existing students. The source promises no bound, and dangling references can push the value above 100.
- DashboardRoutes.MonthlyAvgAtMost100: holds only under the same assumption, applied to the month's records.
