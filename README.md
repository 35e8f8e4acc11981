# Attendance system — a verified model of the API core

This project models the back end of a class attendance system. Students
register their presence at a class session by typing the session's six-digit
code. Teachers manage courses, sessions and students, and read attendance
reports and low-attendance alerts.

The model covers:

- the attendance service (registration, queries, reports, alerts);
- the five REST controllers (attendance, reports, sessions, courses,
  students);
- the Entity Framework context with its keys, unique indexes, foreign keys,
  cascades and seed data.

## How the model is built

- **The database.** The database is the class `Data.AttendanceContext`. It has
  one `seq` field per table. `Snapshot()` reads the four tables as a `Tables`
  value.
- **Saving.** `SaveChanges` commits a pending state exactly when it satisfies
  `Consistent`, and otherwise leaves the store as it was, like a failed
  `SaveChangesAsync`. `Consistent` means:
  - primary keys are unique;
  - the unique indexes hold: student e-mail, student code, course code,
    session code, and the (student, session) pair;
  - every foreign key points at an existing row.
- **Read-only endpoints** are functions of a `Tables` value.
- **Endpoints that write** are methods on the context (`modifies ctx`). Their
  `ensures` clauses give the answer and the whole new state in terms of the
  old one.
- **Answers.** An HTTP answer is an `Http.ActionResult`:
  - 200 is `Ok`, 201 is `Created` and 204 is `NoContent`;
  - 400 is `BadRequest` and 404 is `NotFound`, each with its message;
  - 500 is `ServerError`, for an exception the handler does not catch.
- **Identities.** The store is the SQLite database the application falls back
  to (`Program.cs:34-44`). There every key is an `INTEGER PRIMARY KEY
  AUTOINCREMENT` column. The context keeps one counter per table
  (`Identities`): the largest id ever written to it.
  - A row posted with id 0 gets the counter plus one.
  - A save raises each counter to the largest id it writes and never lowers
    it, so a deleted row's id is not handed out again.
  - A failed save leaves the counters as they were.
- **Clock.** The time stamps `DateTime.Today` and `DateTime.UtcNow` are
  parameters (`today`, `now`).
- **Random codes.** The random numbers behind session codes are a parameter
  `draws`, the sequence the generator would return.

Rates are exact `real`s. `Rate(a, n)` is `a / n * 100`, and 0 when `n` is 0.

## Model

| member | source | states |
|---|---|---|
| Models.DatePart | backend/AttendanceSystem.API/Services/AttendanceService.cs:127 | `DateTime.Date`: the midnight that starts the day of the instant. It is a whole day and at most the instant, less than a day before it. |
| Models.SameDayIff | backend/AttendanceSystem.API/Services/AttendanceService.cs:127 | An instant's date is a given midnight iff the instant falls in the 24 hours from that midnight. |
| Data.FindStudent | backend/AttendanceSystem.API/Services/AttendanceService.cs:133-140 | `Students.FindAsync(id)`: none iff no student has the id. Otherwise it is a stored student with that id. |
| Data.FindCourse | backend/AttendanceSystem.API/Controllers/CoursesController.cs:89 | `Courses.FindAsync(id)`: none iff no course has the id. Otherwise it is a stored course with that id. |
| Data.FindSession | backend/AttendanceSystem.API/Controllers/SessionsController.cs:109 | `Sessions.FindAsync(id)`: none iff no session has the id. Otherwise it is a stored session with that id. |
| Data.FindAttendance | backend/AttendanceSystem.API/Services/AttendanceService.cs:62-66 | The attendance with the id: none iff no attendance has it. Otherwise it is a stored row with that id. |
| Data.SessionCourse | backend/AttendanceSystem.API/Services/AttendanceService.cs:48 | `a.Session.CourseId`: it is defined exactly when a session with the id exists. |
| Data.AtMostOnePerPair | backend/AttendanceSystem.API/Data/AttendanceContext.cs:74-75 | In a consistent store, two attendances of the same student at the same session are the same row. |
| Data.AppendAttendanceKeepsConsistent | backend/AttendanceSystem.API/Data/AttendanceContext.cs:59-76 | Adding an attendance keeps the store consistent when its id and its (student, session) pair are new and both foreign keys resolve. |
| Data.AppendAttendanceKeepsForeignKeys | backend/AttendanceSystem.API/Data/AttendanceContext.cs:64-72 | Adding an attendance whose student and session exist keeps every foreign key resolvable. |
| Data.SeedIsConsistent | backend/AttendanceSystem.API/Data/AttendanceContext.cs:79-88 | `Seed`, the `HasData` rows (3 students, 2 courses), satisfies every key, index and foreign key of `Consistent`, and fits every column length. |
| Data.RemoveStudentCascade | backend/AttendanceSystem.API/Data/AttendanceContext.cs:64-67 | Deleting a student removes exactly that student and its attendances, keeps everything else and leaves the store consistent. |
| Data.RemoveSessionCascade | backend/AttendanceSystem.API/Data/AttendanceContext.cs:69-72 | Deleting a session removes exactly it and its attendances, and leaves the store consistent. |
| Data.RemoveCourseCascade | backend/AttendanceSystem.API/Data/AttendanceContext.cs:52-55 | Deleting a course removes it, its sessions and their attendances (a two-level cascade), and leaves the store consistent. |
| Data.RemoveCourseKeepsForeignKeys | backend/AttendanceSystem.API/Data/AttendanceContext.cs:52-72 | Any state with exactly the rows the course cascade keeps has resolvable foreign keys. |
| Data.AppendSessionConsistentIff | backend/AttendanceSystem.API/Data/AttendanceContext.cs:45-56 | A session with a fresh code can be added iff its course exists and its id is unused. |
| Data.AppendCourseConsistentIff | backend/AttendanceSystem.API/Data/AttendanceContext.cs:34-42 | A course can be added iff its id and its code are unused. |
| Data.AppendStudentConsistentIff | backend/AttendanceSystem.API/Data/AttendanceContext.cs:22-31 | A student can be added iff its id, e-mail and student code are all unused. |
| Data.ReplaceSessionConsistentIff | backend/AttendanceSystem.API/Data/AttendanceContext.cs:45-56 | Overwriting a stored session keeps the store consistent iff its course exists and no other session has its code. |
| Data.ReplaceSessionConsistent | backend/AttendanceSystem.API/Data/AttendanceContext.cs:45-56 | The "if" half: an update with an existing course and a free code keeps the store consistent. |
| Data.ReplacedSessionFits | backend/AttendanceSystem.API/Data/AttendanceContext.cs:45-56 | The "only if" half: a consistent update has an existing course and a code no other session has. |
| Data.ReplaceSessionKeepsAttendanceRefs | backend/AttendanceSystem.API/Data/AttendanceContext.cs:69-72 | Overwriting a session keeps every attendance's session reference resolvable. |
| Data.ReplaceCourseConsistentIff | backend/AttendanceSystem.API/Data/AttendanceContext.cs:34-42 | Overwriting a stored course keeps the store consistent iff no other course has its code. |
| Data.ReplaceStudentConsistentIff | backend/AttendanceSystem.API/Data/AttendanceContext.cs:22-31 | Overwriting a stored student keeps the store consistent iff no other student has its e-mail or its code. |
| Data.Advance | backend/AttendanceSystem.API/Data/AttendanceContext.cs:20-57 | After a write every stored key is within its table's counter, and no counter went down. |
| Data.Raise | backend/AttendanceSystem.API/Data/AttendanceContext.cs:20-57 | Writing an id raises a counter to that id when it is larger, and otherwise leaves it. |
| Data.AdvanceCovered | backend/AttendanceSystem.API/Data/AttendanceContext.cs:20-57 | Writing only keys within the counters changes no counter. |
| Data.AdvanceAppendStudent | backend/AttendanceSystem.API/Data/AttendanceContext.cs:20-31 | Adding a student changes only the student counter, raised to the new id when it is larger. |
| Data.AdvanceAppendCourse | backend/AttendanceSystem.API/Data/AttendanceContext.cs:34-42 | Adding a course changes only the course counter, raised to the new id when it is larger. |
| Data.AdvanceAppendSession | backend/AttendanceSystem.API/Data/AttendanceContext.cs:45-56 | Adding a session changes only the session counter, raised to the new id when it is larger. |
| Data.AdvanceAppendAttendance | backend/AttendanceSystem.API/Data/AttendanceContext.cs:59-76 | Adding an attendance changes only the attendance counter, raised to the new id when it is larger. |
| Data.RemoveKeepsIdentities | backend/AttendanceSystem.API/Data/AttendanceContext.cs:52-72 | A delete, which keeps a subset of the rows, leaves every counter where it was. |
| Data.ReplaceStudentKeepsIdentities | backend/AttendanceSystem.API/Data/AttendanceContext.cs:20-31 | Overwriting a stored student leaves every counter where it was. |
| Data.ReplaceCourseKeepsIdentities | backend/AttendanceSystem.API/Data/AttendanceContext.cs:34-42 | Overwriting a stored course leaves every counter where it was. |
| Data.ReplaceSessionKeepsIdentities | backend/AttendanceSystem.API/Data/AttendanceContext.cs:45-56 | Overwriting a stored session leaves every counter where it was. |
| Data.AttendanceContext.constructor | backend/AttendanceSystem.API/Data/AttendanceContext.cs:8-15 | A fresh context holds exactly the seed data and is consistent. Its counters are those the seed leaves: 3 students, 2 courses. |
| Data.AttendanceContext.SaveChanges | backend/AttendanceSystem.API/Data/AttendanceContext.cs:17-76 | The save succeeds iff the pending state satisfies every key, index and foreign key (`Consistent`). On success the store becomes that state and each counter rises to the largest key written. Otherwise the tables and the counters are unchanged. |
| AttendanceService.FindActiveSessionByCode | backend/AttendanceSystem.API/Services/AttendanceService.cs:120-122 | None iff no active session has the code. Otherwise it is a stored, active session with that code. |
| AttendanceService.HasAttendance | backend/AttendanceSystem.API/Services/AttendanceService.cs:142-149 | True iff an attendance of the student at the session is stored. |
| AttendanceService.ValidateRegistration | backend/AttendanceSystem.API/Services/AttendanceService.cs:18-22 | The registration checks in order: the code is unknown; the session is not today's; the student is unknown; already registered. On success the session is the active one with the code, dated today, and the student exists with no attendance at it. |
| AttendanceService.ValidationOrder | backend/AttendanceSystem.API/Services/AttendanceService.cs:118-149 | For an active session with the code, each error is chosen exactly when its check is the first to fail. |
| AttendanceService.MessagesDistinct | backend/AttendanceSystem.API/Services/AttendanceService.cs:120-148 | `Message`: the four refusals carry four different messages. |
| AttendanceService.RegistrationKeepsConsistent | backend/AttendanceSystem.API/Services/AttendanceService.cs:24-34 | A registration that passes validation can always be saved: its new id is above the counter, so no stored attendance has it. |
| AttendanceService.SecondRegistrationIsDuplicate | backend/AttendanceSystem.API/Services/AttendanceService.cs:142-149 | After a successful registration the same request is refused as already registered. |
| AttendanceService.RegisterAttendanceAsync | backend/AttendanceSystem.API/Services/AttendanceService.cs:18-37 | A failed validation returns its error and changes nothing, counters included. Otherwise one attendance is appended and its mapped response is returned. The attendance is present, registered now, with the notes, and its id is one above the attendance counter, which moves to it. |
| AttendanceService.AttendanceView | backend/AttendanceSystem.API/Services/AttendanceService.cs:236-252 | The response for an attendance copies its fields. Name and code come from its student; title, course code and course name come from its session and course. |
| AttendanceService.AttendanceViews | backend/AttendanceSystem.API/Services/AttendanceService.cs:57 | One response per record, in the same order. |
| AttendanceService.FilterAttendances | backend/AttendanceSystem.API/Services/AttendanceService.cs:41-56 | The records that pass every filter given (course, student, session), keeping multiplicity. |
| AttendanceService.NoFilterReturnsAll | backend/AttendanceSystem.API/Services/AttendanceService.cs:39-56 | Without filters every attendance is returned, in store order. |
| AttendanceService.GetAttendances | backend/AttendanceSystem.API/Services/AttendanceService.cs:39-58 | One response per matching record. Every response satisfies each filter given. |
| AttendanceService.GetAttendanceById | backend/AttendanceSystem.API/Services/AttendanceService.cs:60-69 | Null iff no attendance has the id. Otherwise it is the response of the attendance with that id. |
| AttendanceService.HistoryRecords | backend/AttendanceSystem.API/Services/AttendanceService.cs:108-113 | Exactly the student's attendances, with multiplicity, newest registration first. |
| AttendanceService.HistoryViewsOrdered | backend/AttendanceSystem.API/Services/AttendanceService.cs:112-115 | Mapping keeps the student and the newest-first order. |
| AttendanceService.ViewsCoverRecords | backend/AttendanceSystem.API/Services/AttendanceService.cs:115 | Every record's response is in the mapped list. |
| AttendanceService.ViewsMembers | backend/AttendanceSystem.API/Services/AttendanceService.cs:115 | The mapped list holds exactly the responses of its records. |
| AttendanceService.GetStudentAttendanceHistory | backend/AttendanceSystem.API/Services/AttendanceService.cs:104-116 | Fails with "student not found" iff the student is unknown. Otherwise a response is listed iff it is the view of one of the student's stored attendances, with one response per such attendance, newest first. |
| AttendanceReports.Rate | backend/AttendanceSystem.API/Services/AttendanceService.cs:168 | A rate is never negative and is 0 when there are no sessions. |
| AttendanceReports.RateScaled | backend/AttendanceSystem.API/Services/AttendanceService.cs:213 | With sessions, rate × sessions = attended × 100. |
| AttendanceReports.RateBelowIff | backend/AttendanceSystem.API/Services/AttendanceService.cs:213-215 | Being under a threshold is the integer comparison attended × 100 < threshold × sessions. |
| AttendanceReports.CriticalIff | backend/AttendanceSystem.API/Services/AttendanceService.cs:228 | An alert is critical (rate < 50) iff the student attended fewer than half of the sessions. |
| AttendanceReports.RateAtMostHundred | backend/AttendanceSystem.API/Services/AttendanceService.cs:168 | Attending at most every session gives at most 100. |
| AttendanceReports.ActiveCourseSessions | backend/AttendanceSystem.API/Services/AttendanceService.cs:153-155 | Exactly the course's active sessions. |
| AttendanceReports.CourseSessions | backend/AttendanceSystem.API/Controllers/CoursesController.cs:25 | Exactly the course's sessions, active or not. |
| AttendanceReports.CourseAttendances | backend/AttendanceSystem.API/Services/AttendanceService.cs:159-163 | Exactly the attendances whose session belongs to the course. |
| AttendanceReports.StudentCourseAttendances | backend/AttendanceSystem.API/Services/AttendanceService.cs:167 | Exactly the student's attendances at the course's sessions. |
| AttendanceReports.AttendedSessionsIsCourseAttendances | backend/AttendanceSystem.API/Services/AttendanceService.cs:209-211 | The per-student count used by alerts equals the count the report takes from the course's attendances. |
| AttendanceReports.AttendedAtMostCourseSessions | backend/AttendanceSystem.API/Data/AttendanceContext.cs:74-75 | With one attendance per (student, session), a student attends at most as many rows as the course has sessions. |
| AttendanceReports.SummaryContents | backend/AttendanceSystem.API/Services/AttendanceService.cs:165-179 | `Summary`: a student's summary carries the student's id, full name and code. Its attended count is the number of the student's attendances in the course; its total is the number of active sessions. Its rate times the total is 100 times the attended count, or 0 without sessions. |
| AttendanceReports.SummaryRate | backend/AttendanceSystem.API/Services/AttendanceService.cs:168 | A summary whose rate is computed from its counts is a percentage of them (`RateMatchesCounts`). |
| AttendanceReports.CourseReportContents | backend/AttendanceSystem.API/Services/AttendanceService.cs:151-194 | `CourseReport`: the report carries the course, the count of active sessions and of students, and one summary per student. Each summary has that student's attended count and rate. The overall rate is 0 without students and otherwise the average of the summaries' rates. |
| AttendanceReports.NoActiveSessionsZeroReport | backend/AttendanceSystem.API/Services/AttendanceService.cs:168 | A course without active sessions reports 0 for every student and overall. |
| AttendanceReports.SummaryRateWithinHundred | backend/AttendanceSystem.API/Services/AttendanceService.cs:165-178 | When none of the course's sessions is inactive, a student's rate is at most 100. |
| AttendanceReports.ReportRatesWithinHundred | backend/AttendanceSystem.API/Services/AttendanceService.cs:165-191 | When none of the course's sessions is inactive, every rate in the report and the overall rate lie in [0, 100]. |
| AttendanceReports.RateExceedsHundredAfterSoftDelete | backend/AttendanceSystem.API/Services/AttendanceService.cs:153-168 | A consistent store where a student attended both sessions of a course, one later soft-deleted, reports a rate of 200 (see Findings). |
| AttendanceReports.SoftDeletedExampleIsConsistent | backend/AttendanceSystem.API/Data/AttendanceContext.cs:17-76 | The store of that example satisfies every key, index and foreign key. |
| AttendanceReports.ActiveAttendedAtMostActiveSessions | backend/AttendanceSystem.API/Services/AttendanceService.cs:153-168 | Counted over active sessions only, a student attended at most as many sessions as the course has active. |
| AttendanceReports.ActiveRateWithinHundred | backend/AttendanceSystem.API/Services/AttendanceService.cs:153-168 | Counted over active sessions only, every rate in a consistent store lies in [0, 100], whatever was soft-deleted. |
| AttendanceReports.ActiveSummaryAgrees | backend/AttendanceSystem.API/Services/AttendanceService.cs:153-168 | While no session of the course is inactive, the corrected summary equals the summary as written. |
| AttendanceReports.OverallRateWithinHundred | backend/AttendanceSystem.API/Services/AttendanceService.cs:181-182 | The average of rates in [0, 100] is in [0, 100]. |
| AttendanceReports.ReportedCourses | backend/AttendanceSystem.API/Services/AttendanceService.cs:73-78 | Exactly the active courses, and only the requested one when an id is given. |
| AttendanceReports.AtMostOneReportedCourse | backend/AttendanceSystem.API/Services/AttendanceService.cs:75-76 | Asking for one course id yields at most one report. |
| AttendanceReports.CourseReports | backend/AttendanceSystem.API/Services/AttendanceService.cs:79-85 | One report per course considered. |
| AttendanceReports.CourseReportsAt | backend/AttendanceSystem.API/Services/AttendanceService.cs:81-85 | The i-th report is the report of the i-th course. |
| AttendanceReports.GetAttendanceReportsAsync | backend/AttendanceSystem.API/Services/AttendanceService.cs:71-88 | The loop builds the course reports of the reported courses, in order. |
| AttendanceReports.AlertForContents | backend/AttendanceSystem.API/Services/AttendanceService.cs:209-229 | `AlertFor`: an alert names the student and course, the attended and total counts and their rate. It is critical iff fewer than half of the sessions were attended. |
| AttendanceReports.CourseAlerts | backend/AttendanceSystem.API/Services/AttendanceService.cs:202 | A course without active sessions raises no alerts. |
| AttendanceReports.CourseAlertsMembers | backend/AttendanceSystem.API/Services/AttendanceService.cs:196-234 | An alert is raised for a course iff the course has active sessions and it is a student's alert with a rate under the threshold. |
| AttendanceReports.StudentAlertsStep | backend/AttendanceSystem.API/Services/AttendanceService.cs:207-231 | Each loop step appends the student's alert exactly when its rate is under the threshold. |
| AttendanceReports.GenerateCourseAlertsAsync | backend/AttendanceSystem.API/Services/AttendanceService.cs:196-234 | The loop over the students computes the course's alerts. |
| AttendanceReports.ActiveCourses | backend/AttendanceSystem.API/Services/AttendanceService.cs:92 | Exactly the active courses. |
| AttendanceReports.AllAlertsMembers | backend/AttendanceSystem.API/Services/AttendanceService.cs:95-99 | The gathered alerts are those of the active courses. |
| AttendanceReports.Alerts | backend/AttendanceSystem.API/Services/AttendanceService.cs:101 | The alerts ordered by rate, lowest first, as a permutation of the gathered ones. |
| AttendanceReports.AlertsMembers | backend/AttendanceSystem.API/Services/AttendanceService.cs:90-102 | An alert is listed iff it is an alert of some active course. |
| AttendanceReports.AlertsSound | backend/AttendanceSystem.API/Services/AttendanceService.cs:202-215 | Every listed alert is under the threshold, has sessions, and belongs to an active course and a stored student. |
| AttendanceReports.AlertsComplete | backend/AttendanceSystem.API/Services/AttendanceService.cs:207-230 | Every student under the threshold in an active course with sessions is listed. |
| AttendanceReports.GetAttendanceAlertsAsync | backend/AttendanceSystem.API/Services/AttendanceService.cs:90-102 | The loop over the active courses yields the sorted alerts. |
| AttendanceController.ViewIsComposedResponse | backend/AttendanceSystem.API/Controllers/AttendanceController.cs:70-85 | The response the controller composes field by field equals the service's mapping of the same rows. |
| AttendanceController.RegisteredView | backend/AttendanceSystem.API/Controllers/AttendanceController.cs:55-85 | After an accepted registration the new row is stored, the store is consistent, and the row's response is the one composed from its student, session and course. |
| AttendanceController.RegisterAttendance | backend/AttendanceSystem.API/Controllers/AttendanceController.cs:22-86 | A failed check answers 400 with its message and changes nothing, counters included. Otherwise one attendance, with the id one above the attendance counter, is appended; the counter moves to it and 201 carries the row's response. |
| AttendanceController.GetAttendance | backend/AttendanceSystem.API/Controllers/AttendanceController.cs:90-119 | 404 iff no attendance has the id. Otherwise 200 with that attendance's response. |
| AttendanceController.GetAttendanceFindsRecord | backend/AttendanceSystem.API/Controllers/AttendanceController.cs:90-119 | Every stored attendance is found by its id, with its own response. |
| AttendanceController.GetAttendances | backend/AttendanceSystem.API/Controllers/AttendanceController.cs:123-167 | Always 200. Every response satisfies each filter given. |
| AttendanceController.GetAttendancesMembers | backend/AttendanceSystem.API/Controllers/AttendanceController.cs:123-167 | A response is listed iff it is the response of a stored attendance passing every filter. |
| ReportsController.GetAttendanceReports | backend/AttendanceSystem.API/Controllers/ReportsController.cs:21-79 | Always 200, with one report per reported course, the i-th for the i-th course. |
| ReportsController.GetStudentAttendanceHistory | backend/AttendanceSystem.API/Controllers/ReportsController.cs:83-114 | 404 "Estudiante no encontrado" iff the student is unknown. Otherwise 200, and a response is listed iff it is the view of one of the student's stored attendances, with one response per such attendance, newest first. |
| ReportsController.GetAttendanceAlerts | backend/AttendanceSystem.API/Controllers/ReportsController.cs:118-161 | Always 200 with the alerts for the threshold, 70 when none is given. Every alert is under the threshold and has sessions. |
| SessionsController.DigitChar | backend/AttendanceSystem.API/Controllers/SessionsController.cs:149 | A digit value prints as a decimal digit. |
| SessionsController.DecimalString | backend/AttendanceSystem.API/Controllers/SessionsController.cs:149 | `int.ToString()` of a natural: non-empty, all digits, with a leading zero only for 0. |
| SessionsController.DecimalRoundTrip | backend/AttendanceSystem.API/Controllers/SessionsController.cs:149 | Reading back the printed digits gives the number. |
| SessionsController.DecimalStringLength | backend/AttendanceSystem.API/Controllers/SessionsController.cs:149 | A number in [10^(k-1), 10^k) prints with exactly k digits. |
| SessionsController.SixDigitCode | backend/AttendanceSystem.API/Controllers/SessionsController.cs:149 | Every draw of `Next(100000, 999999)` prints as a six-character code. |
| SessionsController.CodeInUse | backend/AttendanceSystem.API/Controllers/SessionsController.cs:151 | True iff a stored session has the code. |
| SessionsController.FirstFreeCodeIsFirst | backend/AttendanceSystem.API/Controllers/SessionsController.cs:143-154 | No code iff every draw is taken. Otherwise the code is unused, six long, and the first draw not taken. |
| SessionsController.GenerateUniqueCode | backend/AttendanceSystem.API/Controllers/SessionsController.cs:143-154 | The do/while loop returns the first draw whose code no session has, six characters long. |
| SessionsController.PostSession | backend/AttendanceSystem.API/Controllers/SessionsController.cs:55-73 | The session gets a fresh code, is active, and is created now. Its id is the posted one, or one above the session counter when none is posted. It is stored and answered with 201 iff its course exists and its id is unused; the counter then rises to its id. Otherwise the answer is 400 "Error creating session: …" and nothing changes. |
| SessionsController.PostedSessionIsUsable | backend/AttendanceSystem.API/Controllers/SessionsController.cs:59-62 | A posted session is active and its six-character code clashes with no stored one. |
| SessionsController.GetSessions | backend/AttendanceSystem.API/Controllers/SessionsController.cs:21-33 | Always 200 with exactly the active sessions, of the given course when one is given. |
| SessionsController.GetSession | backend/AttendanceSystem.API/Controllers/SessionsController.cs:37-51 | 404 iff no active session has the id. Otherwise 200 with the session, its course and exactly its attendances. |
| SessionsController.GetSessionByCode | backend/AttendanceSystem.API/Controllers/SessionsController.cs:123-141 | 404 "Código de sesión no válido" iff no active session has the code. 400 "Esta sesión no está activa para hoy" when it is not dated today. Otherwise 200 with it. |
| SessionsController.ByCodeAgreesWithRegistration | backend/AttendanceSystem.API/Controllers/SessionsController.cs:123-141 | The lookup by code answers 404 and 400 exactly when registration fails on the code or the date, with the same messages. |
| SessionsController.PutSession | backend/AttendanceSystem.API/Controllers/SessionsController.cs:77-103 | 400 on an id mismatch; 404 when the session is missing. Otherwise the row takes the body and the answer is 204, unless the course is missing or the code is taken: then 500 and nothing changes. The counters never change. |
| SessionsController.DeleteSession | backend/AttendanceSystem.API/Controllers/SessionsController.cs:107-119 | 404 when missing. Otherwise the session is only marked inactive and the answer is 204. The counters never change. |
| SessionsController.DeactivatedSessionKeepsConsistent | backend/AttendanceSystem.API/Controllers/SessionsController.cs:115-116 | Marking a session inactive always saves. |
| SessionsController.DeletedSessionIsHidden | backend/AttendanceSystem.API/Controllers/SessionsController.cs:107-141 | After a delete the attendances stay. The session is no longer served by id or by code, and registration with its code fails as an invalid code. |
| CoursesController.GetCourses | backend/AttendanceSystem.API/Controllers/CoursesController.cs:21-27 | Always 200, one entry per active course. |
| CoursesController.GetCoursesMembers | backend/AttendanceSystem.API/Controllers/CoursesController.cs:21-27 | An entry is listed iff its course is active and it carries exactly that course's sessions, active or not. |
| CoursesController.GetCourse | backend/AttendanceSystem.API/Controllers/CoursesController.cs:31-43 | 404 iff no active course has the id. Otherwise 200 with it and exactly its active sessions. |
| CoursesController.PostCourse | backend/AttendanceSystem.API/Controllers/CoursesController.cs:47-53 | The course's id is the posted one, or one above the course counter when none is posted. It is stored and answered with 201 iff its id and code are unused; the counter then rises to its id. Otherwise the save throws (500) and nothing changes, counters included. |
| CoursesController.NewCourseIdIsFresh | backend/AttendanceSystem.API/Controllers/CoursesController.cs:49-50 | A course posted without an id gets an id above the course counter, so above every id a stored course has. |
| CoursesController.PutCourse | backend/AttendanceSystem.API/Controllers/CoursesController.cs:57-83 | 400 on an id mismatch; 404 when missing. Otherwise the row takes the body and the answer is 204, unless its code is taken: then 500 and nothing changes. The counters never change. |
| CoursesController.DeleteCourse | backend/AttendanceSystem.API/Controllers/CoursesController.cs:87-99 | 404 when missing. Otherwise the course is only marked inactive and the answer is 204. The counters never change. |
| CoursesController.DeactivatedCourseKeepsConsistent | backend/AttendanceSystem.API/Controllers/CoursesController.cs:95-96 | Marking a course inactive always saves. |
| CoursesController.DeletedCourseIsHidden | backend/AttendanceSystem.API/Controllers/CoursesController.cs:87-99 | After a delete the sessions and attendances stay. The course is no longer served, listed, reported on or considered for alerts. |
| StudentsController.GetStudent | backend/AttendanceSystem.API/Controllers/StudentsController.cs:28-38 | 404 iff no student has the id. Otherwise 200 with that student. |
| StudentsController.GetStudentByCode | backend/AttendanceSystem.API/Controllers/StudentsController.cs:105-116 | 404 "Estudiante con código … no encontrado" iff no student has the code. Otherwise 200 with a student having it. |
| StudentsController.StatusOf | backend/AttendanceSystem.API/Controllers/StudentsController.cs:74-82 | None iff the student has no attendance at the session. Otherwise it is the presence, time and notes of such an attendance. |
| StudentsController.UpcomingSessions | backend/AttendanceSystem.API/Controllers/StudentsController.cs:60-63 | Exactly the course's active sessions dated today or later, by date and then start time. |
| StudentsController.EntryContents | backend/AttendanceSystem.API/Controllers/StudentsController.cs:64-83 | `Entry`: a shown session is flagged as today's iff it falls on today's calendar day. It carries a status iff the student has an attendance at it. |
| StudentsController.ScheduleOfShowsUpcoming | backend/AttendanceSystem.API/Controllers/StudentsController.cs:53-85 | `ScheduleOf`: a course's schedule shows each of its upcoming active sessions and nothing else. |
| StudentsController.ScheduleOfIsChronological | backend/AttendanceSystem.API/Controllers/StudentsController.cs:62-63 | `ScheduleOf`: a course's schedule is ordered by date and, within a date, by start time. |
| StudentsController.SchedulesMembers | backend/AttendanceSystem.API/Controllers/StudentsController.cs:51-87 | `Schedules`: a course is listed iff it is active and has at least one upcoming session. |
| StudentsController.ScheduleEmptyIff | backend/AttendanceSystem.API/Controllers/StudentsController.cs:86 | A course drops out iff all its active sessions are in the past. |
| StudentsController.GetStudentCoursesWithSessions | backend/AttendanceSystem.API/Controllers/StudentsController.cs:42-101 | 404 "Estudiante no encontrado" iff the student is unknown. Otherwise 200 with the student's details and the schedule. |
| StudentsController.PostStudent | backend/AttendanceSystem.API/Controllers/StudentsController.cs:120-136 | The student is created now. Its id is the posted one, or one above the student counter when none is posted. It is stored and answered with 201 iff its id, e-mail and code are unused; the counter then rises to its id. Otherwise 400 "Error creating student: …" and nothing changes, counters included. |
| StudentsController.PutStudent | backend/AttendanceSystem.API/Controllers/StudentsController.cs:140-168 | 400 "ID mismatch"; 404 when missing. Otherwise only the names, e-mail and code change (id and creation time stay) and the answer is 204, unless another student has the e-mail or code: then 400 "Error updating student: …" and nothing changes. The counters never change. |
| StudentsController.DeleteStudent | backend/AttendanceSystem.API/Controllers/StudentsController.cs:172-191 | 404 when missing. Otherwise the student and all its attendances are removed and the answer is 204. The counters never change. |
| StudentsController.DeletedStudentIdIsNotReused | backend/AttendanceSystem.API/Controllers/StudentsController.cs:120-191 | After a student is deleted, a student posted without an id never gets the deleted id, nor the id of any student still stored. |
| StudentsController.DeletedStudentIsGone | backend/AttendanceSystem.API/Controllers/StudentsController.cs:172-191 | After a delete the student is not found, has no history and no attendances. Other students' attendances stay. |
| StudentsController.EntryFor | backend/AttendanceSystem.API/Controllers/StudentsController.cs:201-211 | An attendance's entry copies its id, presence, time and notes. It takes the title and date of the attendance's stored session, and the name and code of that session's stored course. |
| StudentsController.EntriesFor | backend/AttendanceSystem.API/Controllers/StudentsController.cs:201-211 | One entry per attendance. |
| StudentsController.OwnAttendances | backend/AttendanceSystem.API/Controllers/StudentsController.cs:200 | Exactly the student's attendances. None when the student has none. |
| StudentsController.GetStudentAttendance | backend/AttendanceSystem.API/Controllers/StudentsController.cs:195-216 | Always 200 with one entry per attendance of the student, latest session date first. |
| StudentsController.EntriesCoverRecords | backend/AttendanceSystem.API/Controllers/StudentsController.cs:201-211 | Every attendance's entry is in the mapped list. |
| StudentsController.EntriesForMembers | backend/AttendanceSystem.API/Controllers/StudentsController.cs:201-211 | The mapped list holds exactly the entries of its attendances. |
| StudentsController.GetStudentAttendanceMembers | backend/AttendanceSystem.API/Controllers/StudentsController.cs:195-216 | The list holds the entry of each of the student's attendances and nothing else. |

## Left out

- Rounding: `Math.Round(rate, 2)` on every reported rate is not modelled. Rates and their average are exact rationals, where the source computes in `double`.
- AttendanceReports.Alerts: alerts are ordered by the exact rate, where the source orders by the rounded one. Two rates that round to the same value may therefore appear in either order.
- Sort stability: the database's order for equal keys (`OrderBy`, `OrderByDescending` translated to SQL) is not fixed, and the model sorts the attendance history, the schedules and a student's attendance list stably by insertion. This is not a gap for the alerts: they are sorted in memory by `Enumerable.OrderBy` (`AttendanceService.cs:101`, `ReportsController.cs:160`), which is stable, so there the model's stable sort is exact.
- AttendanceReports.SummaryRateWithinHundred: the bound requires that the course has no inactive session, and so does `ReportRatesWithinHundred`. The reports follow the code, which counts attendances at every session of the course but divides by the active ones. After a soft delete of an attended session a rate can exceed 100 (see Findings).
- SessionsController.PostSession: the random generator is the parameter `draws`. The model requires that some draw gives a free code; with none free, the source's loop never ends.
- SessionsController.PutSession: the branch that rethrows an unexpected concurrency exception (a row deleted between checks) is not modelled. Concurrency between requests is out of scope.
- CoursesController.PutCourse: the same rethrow branch is not modelled, for the same reason.
- Entity Framework change tracking, `async`/`await`, and navigation properties are represented by the rows they load. An example is the student of each attendance on GetSession. Deserialisation of request bodies into entities is not modelled.
- Response serialisation is not modelled. SessionsController.GetSessions, GetSession and GetSessionByCode, and CoursesController.GetCourses and GetCourse return entities with navigations loaded (`SessionsController.cs:22-24, 39-43, 124-127`, `CoursesController.cs:23-26, 33-35`). Entity Framework fills the inverse navigation as well (a session's course lists the session; an attendance's session lists the attendance), so the returned graph has a cycle. `Program.cs:10` keeps the default JSON options, which refuse a cycle while writing the response. The endpoint then fails with an error, where the model answers 200 with the rows.
- Database providers: the model is of the SQLite configuration (`Program.cs:34-44`). With PostgreSQL or SQL Server (`Program.cs:24-33`) the outcomes below differ. Those providers also consume an identity value on a failed insert, which the model's counters do not.
- Column lengths (`HasMaxLength`) are stated as predicates (`FitsColumns`) and proved for the seed data. They are not part of the save condition, because SQLite does not enforce them.
- AttendanceService.RegisterAttendanceAsync: an over-long `notes` is stored as it is. PostgreSQL and SQL Server reject it on save.
- StudentsController.PostStudent: over-long names, e-mail or code are stored as they are. PostgreSQL and SQL Server reject them on save.
- StudentsController.PutStudent: over-long fields are accepted in the same way.
- CoursesController.PostCourse: over-long name, code, description or instructor are accepted in the same way.
- CoursesController.PutCourse: over-long fields are accepted in the same way.
- SessionsController.PostSession: an over-long title is accepted in the same way.
- SessionsController.PutSession: an over-long title or code is accepted in the same way.
- GetStudents, in both `StudentsController.cs:21-24` and `AttendanceController.cs:171-174`, returns the student table unchanged. It has no contract worth stating, so it is not modelled.
- Duplicated endpoints: the attendance and reports controllers repeat the service's queries. They are modelled by the same definitions in `AttendanceService` and `AttendanceReports`.
- Excluded code: the health endpoint, application start-up (`Program.cs`), the `IAttendanceService` interface and the React front end.
- Message texts: the 404 bodies that the source wraps in `{ message = ... }` are modelled by their message text alone.

## Findings

| source | as written | input that shows it | evidently intended | confidence | as-written member | corrected member |
|---|---|---|---|---|---|---|
| backend/AttendanceSystem.API/Services/AttendanceService.cs:153-168 | The attended count takes the student's attendances at every session of the course, active or soft-deleted. The divisor counts only active sessions. | A course with sessions 1 (active) and 2 (soft-deleted); the student attended both. The report gives 2 of 1 sessions, a rate of 200. | Count only attendances at active sessions, so every rate lies in [0, 100]. | not executed | AttendanceReports.RateExceedsHundredAfterSoftDelete | AttendanceReports.ActiveRateWithinHundred |

The report and alert endpoints keep the count as written, since that is what
the code does. `ActiveSummary` is the corrected summary. It is proved to agree
with the as-written one while no session of the course is inactive
(`ActiveSummaryAgrees`), and to stay within [0, 100] in every consistent store
(`ActiveRateWithinHundred`).
