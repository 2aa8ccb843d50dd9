# Attendance system: a verified model of its record-keeping core

The attendance system marks students present through face recognition and
shows the results in a browser front end and a desktop application. Under
the camera, chart and form code there are five small pieces of record
keeping. This project models those pieces in Dafny and proves what they
promise:

- **Dashboard** (`dashboard.dfy`). It turns the stored students and attendance lists into:
  - today's present, absent and rate figures;
  - the seven-day series of present counts;
  - the per-department student counts;
  - the five top performers;
  - the eight most recent records.
- **Student registry** (`manage_students.dfy`). This is the "Manage Students" list keyed by `student_id`:
  - add, with a required-field check and a duplicate check;
  - edit of the mutable fields;
  - delete after confirmation;
  - the name and department filters of the list view.
- **Live attendance session** (`live_attendance.dfy`). The session list holds at most one entry per student:
  - a recognised student is put at the front;
  - deletion by list position uses `splice`;
  - there are search and status filters;
  - the list for a chosen date;
  - the totals of the daily export.
- **Report helpers** (`reports.dfy`):
  - the Good/Poor classification at 75 %;
  - the column sort of the report table;
  - the name search;
  - the date ranges filled in for daily, weekly and monthly reports;
  - the check that both dates are present before a report is requested.
- **Database tables** (`database.dfy`). The SQLite `students` and `attendance` tables are held as in-memory sequences, with these statements:
  - add a student;
  - mark attendance (check in, then check out);
  - delete a student together with their attendance;
  - the joined, ordered record query.

Shared pieces:

| file | contents |
|---|---|
| `common.dfy` | `Option`, `Result`, `Min`/`Max`, and an exact percentage on `real` |
| `text.dfy` | ASCII lower-casing, substring search, trimming, the JavaScript `a \|\| b` default, and code-point lexicographic order |
| `sorting.dfy` | A stable insertion sort `SortBy` over a total preorder, proved sorted, a permutation and stable. It is also written in place on an array and proved equal to `SortBy`. |
| `calendar.dfy` | Proleptic Gregorian dates as day numbers (1970-01-01 is day 0), the weekday, and month lengths |
| `stored.dfy` | The `students` and `attendance` records the browser pages read, and the date, status and student filters over them |

Conventions:

- Dates are integer day numbers and times are integer seconds of the day.
- Percentages are exact `real`s.
- JavaScript's `Array.prototype.sort` is stable, so every sort in the source is modelled by `SortBy`. Its comparator `le(a, b)` holds exactly when the source's comparator returns a value `<= 0` for `(a, b)`.
- State that the source changes in place is a class:
  - `StudentManager.students`;
  - `LiveSession.entries`;
  - `DatabaseManager.students` and `DatabaseManager.attendance`.

  Each class method states its whole new state in terms of the old one, and keeps the class invariant `Valid()`.

Where the code and its documentation disagree, the model follows the code:

- `generateReport` only checks that both dates are filled in. It does not check that the start date comes before the end date.
- Editing a student does not reject an empty name.
- `deleteAttendance` passes its index straight to `splice`. A negative index therefore counts from the end, so only an index at or past the end leaves the list unchanged.
- In its intended version, `mark_attendance` records whatever `student_id` it is given. SQLite does not enforce the foreign key unless it is switched on, and the source does not switch it on. Rows of an unknown id are dropped by the join of `get_attendance_records`.

## Model

| member | source | states |
|---|---|---|
| Common.Percentage | dashboard.js:32 | `present / students * 100` as an exact real. It satisfies `r * whole == part * 100`, is never negative, and is at most 100 exactly when the part does not exceed the whole. |
| Stored.OnDate | dashboard.js:29 | Keeps exactly the records whose date equals the given day, and nothing else. |
| Stored.WithStatus | dashboard.js:30 | Keeps exactly the records whose status equals the given status. |
| Stored.PresentOnDate | dashboard.js:201 | Keeps exactly the records of the given day whose status is `'present'`. |
| Stored.OfStudent | dashboard.js:73 | Keeps exactly the records whose `studentId` equals the student's `id`. |
| Stored.OnDateCounts | dashboard.js:29 | The day filter keeps every record of that day as often as it occurs, and no other record. |
| Stored.PresentOnDateCounts | dashboard.js:201 | The present-on-a-day filter keeps every matching record as often as it occurs, and no other. |
| Stored.PresentIsStatusOfDay | dashboard.js:29-30 | Filtering by day and then by `'present'` gives the same list as the single combined filter. |
| Dashboard.LoadStats | dashboard.js:24-37 | The total is the number of students and the present count is the number of today's `'present'` records. Absent is `max(0, total - present)`, so it is never negative, and present + absent = total when present <= total. The rate is 0 with no students and `present / total * 100` otherwise; it lies in [0, 100] when present <= total. |
| Dashboard.PresentCountsTodaysPresentRecords | dashboard.js:29-30 | The present count equals filtering today's records first and then keeping the `'present'` ones, the two steps the source takes. |
| Dashboard.GetWeeklyData | dashboard.js:192-206 | Exactly 7 entries. Entry i counts the present records dated `today - (6 - i)`, so the last entry is today's present count from `LoadStats`. |
| Dashboard.DepartmentOf | dashboard.js:211 | A missing or empty department counts as `"Unknown"`; any other department is kept as it is. |
| Dashboard.Distinct | dashboard.js:216 | The labels in first-seen order: no duplicates, and exactly the departments that occur. |
| Dashboard.GetDepartmentData | dashboard.js:208-219 | Labels are the distinct departments in first-seen order (the key order of the count object). Values are the number of students in each label's department. |
| Dashboard.DepartmentDataSummary | dashboard.js:210-218 | Labels and values have equal length and the labels are distinct. A label exists iff some student has that department (`"Unknown"` when missing). Each value is that department's student count, and the values sum to the number of students. |
| Dashboard.DistinctCountsSum | dashboard.js:212-217 | The per-label counts over the distinct labels sum to the length of the list. |
| Dashboard.RateOf | dashboard.js:73-77 | A student's rate is `min(records / 10 * 100, 100)`, which lies in [0, 100]. It is 0 when the attendance list is empty and 100 from ten records on. |
| Dashboard.TopPerformers | dashboard.js:72-79 | Exactly `min(5, number of students)` performers. |
| Dashboard.TopPerformersShape | dashboard.js:72-79 | At most 5 performers, in non-increasing rate order. Each is a student of the list with its own rate in [0, 100]. Every rate is 0 when the attendance list is empty. |
| Dashboard.TopPerformersAreTheBest | dashboard.js:79 | No student left out of the top five has a higher rate than any student in it. |
| Dashboard.TopPerformersKeepListOrderOnTies | dashboard.js:79 | Students with equal rates keep the order of the students list. |
| Dashboard.RecentAttendance | dashboard.js:42-44 | Exactly `min(8, number of records)` entries. |
| Dashboard.RecentAttendanceShape | dashboard.js:42-44 | At most 8 records, all drawn from the input, newest date and time first. No record left out is newer than one shown. |
| Dashboard.RecentAttendanceKeepsStoredOrderOnTies | dashboard.js:43 | Records with the same date and time keep their stored order. |
| ManageStudents.FindIndex | manage-students.js:85 | The index of the first record with the id, or -1 exactly when there is none. |
| ManageStudents.WithoutId | manage-students.js:204 | Keeps exactly the records whose id differs. |
| ManageStudents.WithoutAbsentId | manage-students.js:204 | Deleting an id that is not in the list leaves the list unchanged. |
| ManageStudents.WithoutIdRemovesOne | manage-students.js:204 | With unique ids, deleting the id at position i removes exactly that record and keeps the others in order. |
| ManageStudents.WithoutIdKeepsUnique | manage-students.js:204 | Deleting keeps the ids unique, and the deleted id no longer occurs. |
| ManageStudents.StudentManager.HandleAddStudent | manage-students.js:39-74 | An empty trimmed id or name is rejected, and so is an id already in the list; both leave the list unchanged. Otherwise exactly one record is appended at the end, with trimmed id, name, email and phone. Ids stay unique. |
| ManageStudents.StudentManager.HandleEditStudent | manage-students.js:76-102 | An unknown (untrimmed) id leaves the list unchanged and reports not found. Otherwise only the first match changes: its name, email, phone and department. Its id and creation time, and every other record, stay the same. |
| ManageStudents.StudentManager.DeleteStudent | manage-students.js:199-209 | Nothing changes without confirmation. With confirmation, every record of the id is removed and the rest keep their order. Ids stay unique. |
| ManageStudents.SampleStudents | manage-students.js:116-133 | The two sample students STU001 and STU002, loaded when nothing is stored, have distinct ids. |
| ManageStudents.NameVisible | manage-students.js:325-334 | A row is shown iff the lowercased search term occurs in its lowercased name; an empty term shows every row. |
| ManageStudents.DepartmentVisible | manage-students.js:336-344 | An empty filter shows every row. Otherwise a row is shown iff its department equals the filter exactly. |
| Text.NameMatches | manage-students.js:325-334 | A name matches iff the lowercased term occurs in the lowercased name at some position; an empty term matches every name. |
| Text.NameMatchesIgnoresCase | reports.js:319-328 | The search result does not depend on the letter case of the term. |
| Text.TrimEmptyIffBlank | manage-students.js:42-48 | A trimmed field is empty iff it holds only whitespace. |
| Text.Trim | manage-students.js:42-45 | The trimmed value neither starts nor ends with white space. |
| Text.TrimIsInnerPiece | manage-students.js:42-45 | The trimmed value is a contiguous piece of the input, and everything cut off around it is white space. |
| Text.OrDefault | live-attendance.js:176 | `v \|\| fallback`: the fallback when the value is missing or empty, the value otherwise. |
| Text.LexLeTotal | reports.js:361 | Code-point string comparison is total. |
| Text.LexLeTransitive | reports.js:361 | Code-point string comparison is transitive. |
| Text.LexLeAntisymmetric | reports.js:361 | Code-point string comparison is antisymmetric. |
| LiveAttendance.Find | live-attendance.js:171 | An entry with the id is found iff the list holds one, and it belongs to the list. |
| LiveAttendance.LiveSession.AddRealAttendance | live-attendance.js:170-191 | No change when an entry with the student's id exists. Otherwise one entry is put at index 0, marked `'present'`, with the department defaulting to `'N/A'`, and the old entries shift by one. Ids stay distinct. |
| LiveAttendance.LiveSession.DeleteAttendance | live-attendance.js:399-406 | Nothing changes without confirmation. With confirmation the list becomes what `splice(index, 1)` leaves. Ids stay distinct. |
| LiveAttendance.SpliceStart | live-attendance.js:401 | The start of `splice`: a non-negative index is clamped to the length, and a negative one counts from the end and is clamped at 0. |
| LiveAttendance.Spliced | live-attendance.js:401 | Removes the element at the start position, or nothing when that position is the end. |
| LiveAttendance.SplicedInRange | live-attendance.js:401 | An index in range removes exactly that entry and keeps the rest in order. |
| LiveAttendance.SplicedOutOfRange | live-attendance.js:401 | An index at or past the end removes nothing. A negative index counts from the end, and one below `-length` removes the first entry. |
| LiveAttendance.SplicedKeepsDistinct | live-attendance.js:401 | Removing an entry keeps the ids distinct. |
| LiveAttendance.SearchVisible | live-attendance.js:252-261 | An item is shown iff the lowercased search term occurs in its lowercased name; an empty term shows every item. |
| LiveAttendance.StatusVisible | live-attendance.js:263-271 | `'all'` shows every item. Another choice shows an item iff its status equals it, a missing or empty status counting as `'present'`. |
| LiveAttendance.Format | live-attendance.js:340-346 | A stored record keeps its name, id, department and status, and is stamped with its own date and time. |
| LiveAttendance.LoadAttendanceForDate | live-attendance.js:330-350 | Entry i is the i-th stored record of the chosen date, reshaped by `Format`, so the view shows exactly those records in stored order. The count equals the number of records of that date. |
| LiveAttendance.DailyExport | live-attendance.js:291-328 | The date is the chosen one, or today when none is chosen. The records are those of that date and Total Present counts their `'present'` records. The rate equals the dashboard rate when there are students. With no students it is NaN (0/0) or Infinity (n/0), because the division is not guarded. |
| Reports.StatusBadge | reports.js:208-209 | `'Good'` iff the percentage is >= 75, `'Poor'` iff it is < 75. |
| Reports.PercentClass | reports.js:203-209 | `'low'` iff the percentage is < 75, `'good'` iff it is >= 75. The class never disagrees with the badge: `'low'` goes with `'Poor'` and `'good'` with `'Good'`. |
| Reports.SearchVisible | reports.js:319-328 | A row is shown iff the lowercased search term occurs in its lowercased name; an empty term shows every row. |
| Reports.Tenths | reports.js:346-357 | The attendance sort key is the percentage as shown, rounded to one decimal, and stays within half a tenth of it. |
| Reports.SortReport | reports.js:330-365 | Sorts the table rows in place. The result is the stable sort of the old rows by the chosen column's comparator; any key other than the four columns leaves the rows in their order. |
| Reports.ComparatorFor | reports.js:332-364 | Every column's comparator is total and transitive, so the sort is well defined. An unknown key compares every pair as equal. |
| Reports.SortReportPermutes | reports.js:332-364 | Whatever the key, the sorted table holds the same rows. |
| Reports.SortByAttendanceDescends | reports.js:344-357 | `'attendance'` orders the shown percentages from high to low. |
| Reports.SortByTextAscends | reports.js:336-361 | `'name'`, `'id'` and `'department'` order their column text from low to high. |
| Reports.SortReportIsStable | reports.js:334-362 | Rows with equal keys keep their order in the table. |
| Reports.ByTextOrders | reports.js:361 | The name, id and department comparators are total and transitive. |
| Reports.ReportTypeChange | reports.js:61-85 | `'daily'` sets start = end = today. `'weekly'` and `'monthly'` fill both dates. Any other type, `'custom'` among them, leaves the dates as they are. |
| Reports.WeeklyRange | reports.js:67-75 | `'weekly'` runs from the Sunday of the current week to 6 days later, and holds today. |
| Reports.MonthlyRange | reports.js:76-82 | `'monthly'` runs, in local calendar days, from day 1 to the last day of the current month. It holds today and has as many days as the month. The day after its end is the first of the next month. |
| Reports.GenerateRequest | reports.js:89-109 | Refused iff either date is missing. Otherwise it carries the type and both dates, and a department iff one is chosen. |
| Calendar.YearLength | reports.js:77-78 | A year has 366 days iff it is a leap year, else 365. |
| Calendar.MonthsFillYear | reports.js:77-78 | The month lengths add up to the length of the year. |
| Calendar.MonthEndIsFollowedByNextMonth | reports.js:78 | Day 0 of the next month is the last day of this month: the day after it is the first of the next month. |
| Calendar.EpochAnchors | reports.js:69 | Day numbers put 1970-01-01 at 0 and give weekday 0 (Sunday) to a known Sunday. |
| Sorting.SortByPermutes | reports.js:334 | The stable sort returns a permutation of its input. |
| Sorting.SortBySorted | reports.js:334 | Under a total, transitive comparator the stable sort returns a sorted sequence. |
| Sorting.SortByStable | reports.js:334 | Elements the comparator ties keep their relative order. |
| Sorting.SortInPlace | reports.js:334 | The in-place insertion sort leaves the array equal to `SortBy` of its old contents. |
| Database.DatabaseManager.AddStudent | database.py:46-61 | Succeeds iff `student_id` and `name` are given and the id is not taken (`NOT NULL`, `UNIQUE`). On success exactly one row is appended; otherwise the table is unchanged and False is returned. Attendance is untouched and ids stay unique. |
| Database.FirstMark | database.py:91-97 | A row for the student and day, or none iff there is no such row. The model returns the first such row in table order, which is one order `fetchone` may use. |
| Database.SetTimeOut | database.py:102-105 | Only the check-out column changes, and only on the rows of that student and day, which get the given time. |
| Database.MarkAttendanceSpec | database.py:91-111 | The intended marking adds a row iff the student has none for the day, and that row holds the check-in time, no check-out and the status. |
| Database.MarkAttendanceAsWritten | database.py:88-115 | The code as written succeeds only on a repeat mark whose row has no check-in, and then leaves the table unchanged; every other call raises. |
| Database.MarkAttendanceAsWrittenNeverRecords | database.py:99-111 | Whenever the intended marking would change the table, the code as written fails; in particular a first mark of the day fails where one row is intended. |
| Database.FirstMarkOfTheDayFails | database.py:106-111 | A first mark of STU001 on an empty table raises as written, where a single check-in row is intended. |
| Database.MarkAttendanceEffect | database.py:99-111 | As intended (the time bound as text): the first mark of a day appends one row with check-in now and no check-out. A later mark adds no row and, when the row has a check-in, sets the check-out on that day's row. Rows of other students or days are untouched. |
| Database.MarkAttendanceKeepsOneMarkPerDay | database.py:91-111 | Marking never creates a second row for a student and day. |
| Database.CheckInThenCheckOut | database.py:91-111 | As intended: a first and a second mark on the same day leave one row holding both times and the first status. |
| Database.DatabaseManager.MarkAttendance | database.py:83-115 | As intended, with the time bound as text (see Findings): returns True and leaves the students table alone. The new attendance table is the check-then-insert-or-update transition, with the `UPDATE` done row by row. It keeps at most one row per student and day. |
| Database.WithoutStudent | database.py:147-148 | Deleting by `student_id`, on either table, keeps exactly the rows of other students. |
| Database.WithoutStudentCounts | database.py:147-148 | Deleting drops every row of the id and keeps every other row as often as it occurred. |
| Database.WithoutAbsentStudent | database.py:147-148 | Deleting an id with no rows leaves the table as it was. |
| Database.DatabaseManager.DeleteStudent | database.py:142-152 | Removes the student's attendance rows and the student, keeps all other rows, and returns True. Both invariants hold afterwards. |
| Database.DeletedStudentIsNotListed | database.py:142-152 | After the deletion the record query returns nothing for that student. |
| Database.JoinRow | database.py:123-129 | One attendance row joined to every student with the same id. |
| Database.Join | database.py:123-129 | A record is produced iff it pairs an attendance row with a student with the same id. |
| Database.AttendanceOn | database.py:128 | Keeps exactly the attendance rows of the given date. |
| Database.RecordOrders | database.py:129-135 | Both orders are total and transitive. |
| Database.AttendanceRecords | database.py:117-140 | A record is returned iff it joins an attendance row (of the requested date, if any) to a student with the same id, as often as the join produces it. With a date the result is ordered by check-in time (no time first). Without one it is ordered by date descending, then check-in time. |
| Database.DatabaseManager.GetAttendanceRecords | database.py:117-140 | On the current tables: a record is returned iff it joins an attendance row (of the requested date, if any) to a student with the same id. With a date it is ordered by check-in time, without one by date, newest first, then check-in time. |

## Left out

- Rendering, HTML templates, modals, message timers and Chart.js configuration are presentation only.
- The camera, video capture loops, `mockRecognition` (driven by `Math.random`) and the face recognition library are I/O, threads and floating-point numerics. Only the effect of a recognition, `addRealAttendance`, is modelled.
- `localStorage`, JSON, `fetch`, the Flask routes and the server-side report aggregation are storage and network glue. The server's aggregation is not part of this model.
- `toFixed`, `toLocaleString` and CSV building are formatting. "Today" and "now" are parameters, and dates are day numbers in the local calendar.
- The daily and weekly dates keep the current time of day before `toISOString` converts them to UTC, so they move to a neighbouring day only when the local time is within the UTC offset of midnight; that clock effect is not modelled.
- Reports.MonthlyRange: both dates are built at local midnight (`new Date(y, m, 1)` and `new Date(y, m + 1, 0)`) and then written through `toISOString`, which is UTC. In every time zone east of UTC this shifts both dates one day back on every call, whatever the hour: March 2024 in UTC+5:30 becomes 2024-02-29 to 2024-03-30. The model states the range in local days, which is what the boxes show only at UTC or west of it.
- `get_all_students`, `get_student_face_encodings` and the pickled face encodings are not modelled. Encodings are carried as opaque bytes.
- The `AUTOINCREMENT` row ids and the `created_at` column of the database are not modelled; table order stands for row-id order.
- Text.Lower: only ASCII letters are lowercased; `toLowerCase` on other letters is left out.
- Text.Trim: only ASCII whitespace is trimmed; Unicode spaces are left out.
- Text.LexLe: `localeCompare` is modelled as code-point order; locale collation is left out.
- Dashboard.GetDepartmentData: `Object.keys` lists integer-like keys first in numeric order; the model keeps first-seen order for every label. The count object is a plain `{}`, so a department named after an `Object.prototype` member (`toString`, `constructor`, `hasOwnProperty`, ...) starts from that inherited function and `+ 1` yields a string, while `__proto__` is never counted at all; the model counts every department name as an ordinary key.
- Dashboard.IsNotOlder: invalid dates (NaN comparator results) are not modelled; records are assumed to carry valid dates and times.
- Database.AttendanceRecords: SQL leaves the order of rows with equal sort keys open; the model fixes it to table order.
- Database.DatabaseManager.MarkAttendance: it models the intended behaviour, not the code as written. As written, `datetime.now().time()` is bound in the INSERT and the UPDATE, and the sqlite3 module has adapters only for dates and date-times, so both statements raise and nothing is committed (see Findings; `MarkAttendanceAsWritten` states that behaviour). A `None` student id is not modelled, and neither is the text format the intended time would be stored in; the status is taken as given (`'Present'` by default in the source).
- The constructors take what is already stored (the student list, today's session list, the existing tables) as parameters: reading `localStorage` and opening the database file are I/O.
- The data index the date view writes into its items does not model deletion from that view: `deleteAttendance` always splices the session list.

## Findings

| source | as written | input that shows it | evidently intended | confidence | as-written member | corrected member |
|---|---|---|---|---|---|---|
| database.py:89 | `current_time = datetime.now().time()` is bound as a parameter of the INSERT (108-111) and of the UPDATE (102-105). Python's sqlite3 module registers adapters only for `date` and `datetime`, so binding a `time` raises before anything is committed; only a repeat mark on a row without a check-in returns True | a first `mark_attendance('STU001')` of the day on an empty table: the INSERT raises, and no row is added | store the check-in and check-out times (for example as `HH:MM:SS` text), adding one row on the first mark and setting the check-out on a later one | not executed | Database.MarkAttendanceAsWritten | Database.DatabaseManager.MarkAttendance |
