# Attendance backend: query and report layer

This project models the core of a small attendance-tracking web service. The
service stores students and daily attendance marks in SQLite and answers five
routes:

- add a student;
- list students, optionally filtered by department and roll number;
- mark attendance for a roll number;
- report one student's attendance, optionally within a date window;
- give the attendance analytics for one day.

Each route is modelled as a pure function over an immutable store. The store
holds one sequence of rows per table. The SQL each route sends is replaced by
what it means on those sequences:

- an INSERT checks the schema's NOT NULL and UNIQUE constraints and appends a row;
- a SELECT keeps the rows that meet every term of its `WHERE 1=1 AND ...` clause, in table order.

Files:

- `wrappers.dfy`: `Option` (an omitted query parameter) and `Result` (success or error).
- `collation.dfy`: SQLite's default BINARY text order. The date window compares
  dates in this order. It is proved to be a total order.
- `database.dfy`: the three tables and the start-up that creates them. Also the
  schema constraints as the invariant `Valid`, the two INSERT statements the
  routes issue, and SELECT over each table.
- `routes.dfy`: `POST /students`, `GET /students` and `POST /attendance`. A
  failing route returns its error together with the store it was given.
- `analytics.dfy`: `GET /attendance/report/{roll_no}` and `GET /attendance/daily`.
  Also the counting functions and the percentage. The counts are related to an
  independent definition: the set of table positions whose rows qualify.
- `scenarios.dfy`: a worked session from an empty database.

Three behaviours of the code are kept as written:

- A duplicate roll number or e-mail in `add_student` is not caught
  (main.py:49-52). The storage error therefore escapes and the framework answers
  500 (`AddStudent`, `StatusCode`).
- The foreign key at database.py:31 is not enforced, because SQLite's
  foreign-key checking is off by default. Only the route's own lookup at
  main.py:77-79 stops a mark for an unknown roll number (`InsertRecord` has no
  such check).
- A report with only one date bound ignores the window entirely
  (main.py:95-97). The model keeps this (`OneBoundIgnored`).

## Model

| member | source | states |
|---|---|---|
| Collation.LexLe | main.py:96 | The text comparison behind BETWEEN: a prefix of a string, the string itself included, sorts no later than it, and a proper extension sorts after it. |
| Collation.LexLeIsBinaryOrder | main.py:96 | `a` sorts no later than `b` iff `a` is a prefix of `b` or has the smaller character at the first position where they differ. This is SQLite's BINARY comparison. |
| Collation.LexLeReflexive | main.py:96 | Every date string compares less than or equal to itself, so BETWEEN is inclusive. |
| Collation.LexLeAntisymmetric | main.py:96 | Two strings each less than or equal to the other are equal. |
| Collation.LexLeTransitive | main.py:96 | The text order used by BETWEEN is transitive. |
| Collation.LexLeTotal | main.py:96 | Any two strings are comparable in the text order used by BETWEEN. |
| Database.InitializeDb | database.py:9-45 | After start-up all three tables exist. A table that already existed keeps every row. A missing table is created empty. |
| Database.InitializeDbIdempotent | database.py:14-42 | Running the start-up twice is the same as running it once. On a database whose tables all exist it changes nothing. |
| Database.InitializeDbValid | database.py:14-42 | A freshly created database satisfies the schema invariant. Start-up preserves the invariant of an existing one. |
| Database.Valid | database.py:16-20 | In a store satisfying the schema's invariant, no two students share an id, a roll number or an e-mail. No two attendance rows share an id. No two users share an id or an e-mail (database.py:40). |
| Database.FirstNull | database.py:17-20 | Reports a NOT NULL failure exactly when some bound value is NULL. It names the first such column in declaration order: every earlier value is non-NULL. |
| Database.InsertStudent | database.py:15-21 | The student INSERT succeeds iff all four values are non-NULL and neither the roll number nor the e-mail is already taken. Name is checked before the other columns, and a taken roll number is reported before a taken e-mail. On success exactly one row is appended, with the next id, and the other tables are unchanged. The invariant is preserved. |
| Database.InsertRecord | database.py:26-32 | The attendance INSERT fails only on a NULL value, never on an unknown roll number. On success exactly one row is appended and the other tables are unchanged. |
| Database.SelectStudents | database.py:54-61 | A row is returned iff it is in the table and meets every WHERE term. The result is never longer than the table, and is empty when no row qualifies. |
| Database.SelectStudentsCount | database.py:54-61 | Each qualifying student row is returned exactly once: the result is as long as the set of table positions whose rows meet every WHERE term. |
| Database.SelectRecords | database.py:54-61 | The same for `attendance`: a row is returned iff it meets every WHERE term. |
| Database.SelectByRollNoAtMostOne | database.py:18 | Under the UNIQUE roll-number constraint, a WHERE clause that pins the roll number selects at most one student. |
| Routes.StatusCode | main.py:79 | A failed lookup is answered 404 and an uncaught storage error 500 (main.py:49-52); these are the only two codes, both HTTP errors. |
| Routes.Supplied | main.py:63 | An optional query parameter is falsy exactly when it is absent or the empty string, as in the truth tests at main.py:63, 66 and 95. |
| Routes.StudentFilters | main.py:60-68 | A student meets the built WHERE clause iff it matches every supplied filter. There is one term per supplied filter, and the roll-number term comes last when present. |
| Routes.AddStudent | main.py:48-52 | Succeeds iff neither the roll number nor the e-mail is taken. On success it echoes the submission and appends one student row, leaving attendance and users alone. On failure it returns the UNIQUE error as a 500, and the store is unchanged. The store invariant is preserved either way. |
| Routes.ListStudents | main.py:55-71 | A student is listed iff it is in the table and matches every supplied filter. A filter counts as supplied only when it is neither absent nor the empty string. Each matching row is listed exactly once: the listing is as long as the set of table positions whose students match. |
| Routes.ListUnfilteredIsEverything | main.py:60-70 | With neither filter supplied, the listing is the whole table. |
| Routes.EmptyStringIsNoFilter | main.py:63-68 | An empty-string department or roll number gives the same listing as an absent one. |
| Routes.FiltersConjoin | main.py:60-68 | With both filters, a student is listed iff both single-filter listings contain it (AND, not OR). |
| Routes.ListByRollNoAtMostOne | main.py:66-70 | In a valid store, filtering by a roll number lists at most one student. |
| Routes.MarkAttendance | main.py:74-83 | Succeeds iff some student has the given roll number. Otherwise it answers 404 "Student not found" and the store is unchanged. On success it appends exactly one row carrying the submitted student id, date and status. Students and earlier rows are unchanged and the invariant is preserved. |
| Analytics.CountPresent | main.py:101 | The number of "Present" rows never exceeds the number of rows. |
| Analytics.CountAbsent | main.py:116 | The number of non-"Present" rows never exceeds the number of rows. |
| Analytics.PresentPlusAbsent | main.py:114-116 | Every row is counted as exactly one of present or absent. |
| Analytics.PercentageOf | main.py:107 | The percentage times the total equals present times 100 when the total is positive. It is 0 when the total is 0, and lies between 0 and 100 when present does not exceed total. |
| Analytics.AttendanceReport | main.py:86-108 | The report echoes the roll number, and present days never exceed total days, which never exceed the table size. |
| Analytics.ReportPercentage | main.py:107 | The report's percentage is present days over total days, or 0 with no days, and lies between 0 and 100. |
| Analytics.ReportConds | main.py:92-97 | A row meets the report's WHERE clause iff its student id is the roll number and, when both bounds are non-empty, its date lies between them inclusively. |
| Analytics.ReportCounts | main.py:92-101 | Total days is the number of table positions whose row is counted by the report. Present days is the number of those whose status is exactly "Present". |
| Analytics.SelectCounts | main.py:99-101 | The length of a selection equals the number of qualifying table positions. The present and absent counts of a selection equal the numbers of qualifying present and absent positions. |
| Analytics.OneBoundIgnored | main.py:95-97 | Unless both bounds are non-empty, the report equals the report with no window. |
| Analytics.MoreCondsFewerRows | main.py:95-97 | Appending WHERE terms never selects more rows, nor more present rows. |
| Analytics.WindowNarrows | main.py:95-97 | Applying the window never raises total days or present days. |
| Analytics.InvertedWindowIsEmpty | main.py:95-97 | With a start date that sorts after the end date, the report counts no days and its percentage is 0. |
| Analytics.WindowInclusive | main.py:96 | A row dated on either bound of a non-empty window is counted. |
| Analytics.DailyAttendance | main.py:111-124 | Present plus absent equals the total, absent is never negative, and the total never exceeds the table size. |
| Analytics.DailyPercentage | main.py:123 | The daily percentage is present over total, or 0 with no rows, and lies between 0 and 100. |
| Analytics.DailyCounts | main.py:113-116 | The total is the number of rows with exactly that date. Present is those with status "Present". Absent is those with any other status, whatever its text. |
| Analytics.ReportAfterAppend | main.py:92-101 | One more attendance row raises a report's total by one exactly when the report counts that row, and its present count by one exactly when the row is also "Present". |
| Analytics.DailyAfterAppend | main.py:113-116 | One more attendance row changes only the analytics of its own date. It adds one to the total there, and one to present or to absent according to its status. |
| Analytics.MarkThenReport | main.py:74-108 | A successful mark raises a report's total by one exactly when the report counts the new row, and its present count by one exactly when the new row is also "Present". |
| Analytics.MarkThenDaily | main.py:74-124 | A successful mark adds one to the analytics of its own date and none to any other date. It adds to present or to absent according to its status. |
| Analytics.AddStudentKeepsReports | main.py:48-52 | Adding a student changes no report and no daily analytics. |
| Scenarios.DuplicateRollNoRefused | main.py:48-52 | From an empty database, student R1 is accepted. A second student with roll number R1 is refused with the roll-number UNIQUE error, and the store is unchanged. |
| Scenarios.BothMarksAccepted | main.py:74-83 | In the same session, marking R1 present on 2024-01-01 and absent on 2024-01-02 is accepted both times, and each mark appends its row. |
| Scenarios.ReportAfterFirstMark | main.py:86-108 | After the first mark, the unwindowed report for R1 shows 1 day, 1 present. |
| Scenarios.ReportAfterTwoMarks | main.py:74-108 | After R1 is marked present on one day and absent on the next, the unwindowed report shows 2 days, 1 present, 50%. |
| Scenarios.DailyAfterFirstMark | main.py:111-124 | After the first mark, the analytics for 2024-01-01 show 1 row, 1 present, 0 absent. |
| Scenarios.DailyAfterTwoMarks | main.py:111-124 | In the same session, the first day's analytics show 1 row, 1 present, 0 absent, 100%. |

## Left out

- Connection handling, commits and `sqlite3.Row` objects (database.py:6-7, 47-61) are not modelled. Each statement is a pure function of the store.
- The SQLAlchemy engine built from `DATABASE_URL` (database.py:63-70) is not modelled. It is environment I/O that the routes never use.
- SELECT returns rows in table order. SQL does not promise any order without `ORDER BY`, so the order of a listing is a modelling choice. Every count is independent of it.
- The id numbering in `Database.Valid` relies on AUTOINCREMENT with no deletes, and on a failed INSERT being rolled back together with its sequence number.
- Database.InsertStudent: when both UNIQUE constraints fail at once, it reports the roll number, following the order in which the indexes are declared. The model does not claim this is how SQLite orders the checks.
- Analytics.PercentageOf: the value is the exact quotient. The float arithmetic and the two-decimal `%` formatting (main.py:107, main.py:123) are left out.
- E-mail syntax validation (main.py:33) is left out. It is an external library rule, so the model takes the submitted e-mail as already valid. Pydantic's rejection of missing fields is left out too: forms always carry strings.
- The `users` table is created at start-up (database.py:36-42), and its constraints are part of the invariant. No route writes it. The demo insert under `__main__` (main.py:129-136) is not modelled.
- App metadata and the home routes (main.py:10-19, 43-45), the in-memory admin list (main.py:145-168), and the CORS set-up (main.py:170-209) are not modelled. Neither is the rebinding of `app`, which means only the last app is served. All of these are configuration or demo code outside the attendance logic.
- `AttendanceApp/main.py` is not part of this model. It is a separate hello-world route.
- The check-then-insert race in `mark_attendance` (main.py:77-82) is not modelled, because the model is sequential.
