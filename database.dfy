/**
 * The two SQLite tables of the desktop and server side, 'students' and
 * 'attendance', held as in-memory sequences in row order, with the
 * statements the database manager runs against them.
 */
module Database {
  import opened Common
  import opened Sorting

  /** A row of 'students'; the nullable columns are `Option`s. */
  datatype StudentRow = StudentRow(
    studentId: string,
    name: string,
    email: Option<string>,
    phone: Option<string>,
    department: Option<string>,
    faceEncoding: Option<seq<bv8>>)

  /** A row of 'attendance'; dates are day numbers, times seconds since midnight. */
  datatype AttendanceRow = AttendanceRow(
    studentId: string,
    date: int,
    timeIn: Option<int>,
    timeOut: Option<int>,
    status: string)

  /** A row of the joined query result. */
  datatype RecordView = RecordView(
    name: string,
    studentId: string,
    date: int,
    timeIn: Option<int>,
    timeOut: Option<int>,
    status: string)

  // ---------------------------------------------------------------------
  // Table predicates
  // ---------------------------------------------------------------------

  predicate HasStudentId(rows: seq<StudentRow>, id: string)
  {
    exists i :: 0 <= i < |rows| && rows[i].studentId == id
  }

  /** The UNIQUE constraint on `student_id`. */
  predicate UniqueStudentIds(rows: seq<StudentRow>)
  {
    forall i, j :: 0 <= i < j < |rows| ==> rows[i].studentId != rows[j].studentId
  }

  predicate IsMark(row: AttendanceRow, studentId: string, date: int)
  {
    row.studentId == studentId && row.date == date
  }

  predicate HasMark(rows: seq<AttendanceRow>, studentId: string, date: int)
  {
    exists i :: 0 <= i < |rows| && IsMark(rows[i], studentId, date)
  }

  /** No two attendance rows share a (student, date) pair. */
  predicate OneMarkPerDay(rows: seq<AttendanceRow>)
  {
    forall i, j :: 0 <= i < j < |rows| ==> !SameDay(rows[i], rows[j])
  }

  // ---------------------------------------------------------------------
  // mark_attendance
  // ---------------------------------------------------------------------

  /** `SELECT ... WHERE student_id = ? AND date = ?` followed by `fetchone()`. */
  function FirstMark(rows: seq<AttendanceRow>, studentId: string, date: int): (r: Option<AttendanceRow>)
    ensures r.None? <==> !HasMark(rows, studentId, date)
    ensures r.Some? ==> r.value in rows && IsMark(r.value, studentId, date)
    ensures r.Some? ==> exists i :: 0 <= i < |rows| && rows[i] == r.value &&
                                   forall j :: 0 <= j < i ==> !IsMark(rows[j], studentId, date)
  {
    if rows == [] then None
    else if IsMark(rows[0], studentId, date) then Some(rows[0])
    else
      var r := FirstMark(rows[1..], studentId, date);
      assert forall j :: 0 < j < |rows| ==> rows[j] == rows[1..][j - 1];
      r
  }

  function Touch(row: AttendanceRow, studentId: string, date: int, time: int): AttendanceRow
  {
    if IsMark(row, studentId, date) then row.(timeOut := Some(time)) else row
  }

  /**
   * `UPDATE attendance SET time_out = ? WHERE student_id = ? AND date = ?`:
   * only the check-out column changes, and only on the rows of that student
   * and day.
   */
  function SetTimeOut(rows: seq<AttendanceRow>, studentId: string, date: int, time: int): (r: seq<AttendanceRow>)
    ensures |r| == |rows|
    ensures forall k :: 0 <= k < |rows| ==>
      r[k].studentId == rows[k].studentId && r[k].date == rows[k].date &&
      r[k].timeIn == rows[k].timeIn && r[k].status == rows[k].status &&
      r[k].timeOut == (if IsMark(rows[k], studentId, date) then Some(time) else rows[k].timeOut)
  {
    seq(|rows|, k requires 0 <= k < |rows| => Touch(rows[k], studentId, date, time))
  }

  /**
   * The table after `mark_attendance` as it is meant to work (the time
   * bound as text): a row is added only when the student has none for the
   * day, and afterwards there is one.
   */
  function MarkAttendanceSpec(rows: seq<AttendanceRow>, studentId: string, status: string, today: int, now: int)
    : (r: seq<AttendanceRow>)
    ensures |r| == |rows| + (if HasMark(rows, studentId, today) then 0 else 1)
    ensures !HasMark(rows, studentId, today) ==> r[|rows|] == AttendanceRow(studentId, today, Some(now), None, status)
  {
    match FirstMark(rows, studentId, today)
    case None => rows + [AttendanceRow(studentId, today, Some(now), None, status)]
    case Some(existing) =>
      if existing.timeIn.Some? then SetTimeOut(rows, studentId, today, now) else rows
  }

  /** What the driver raises when a statement cannot be run. */
  datatype DbError = UnsupportedParameterType

  /**
   * `mark_attendance` as written. It binds `datetime.now().time()`, and the
   * sqlite3 module registers adapters only for dates and date-times, so
   * both the INSERT and the UPDATE raise before anything is committed.
   * Only a repeat mark on a row without a check-in runs no statement with
   * the time, and returns True with the table unchanged.
   */
  function MarkAttendanceAsWritten(rows: seq<AttendanceRow>, studentId: string, status: string, today: int, now: int)
    : (r: Result<seq<AttendanceRow>, DbError>)
    ensures r.Success? <==> HasMark(rows, studentId, today) && FirstMark(rows, studentId, today).value.timeIn.None?
    ensures r.Success? ==> r.value == rows
  {
    match FirstMark(rows, studentId, today)
    case None => Failure(UnsupportedParameterType)
    case Some(existing) =>
      if existing.timeIn.Some? then Failure(UnsupportedParameterType) else Success(rows)
  }

  /**
   * As written, marking never records anything: on every path where the
   * intended behaviour changes the table, the call fails instead.
   */
  lemma MarkAttendanceAsWrittenNeverRecords(rows: seq<AttendanceRow>, studentId: string, status: string,
                                            today: int, now: int)
    ensures MarkAttendanceSpec(rows, studentId, status, today, now) != rows ==>
      MarkAttendanceAsWritten(rows, studentId, status, today, now).Failure?
    ensures !HasMark(rows, studentId, today) ==>
      MarkAttendanceAsWritten(rows, studentId, status, today, now).Failure? &&
      |MarkAttendanceSpec(rows, studentId, status, today, now)| == |rows| + 1
  {
  }

  /** The first mark of a student on an empty table fails as written, where one row is intended. */
  lemma FirstMarkOfTheDayFails()
    ensures MarkAttendanceAsWritten([], "STU001", "Present", 19000, 32400).Failure?
    ensures MarkAttendanceSpec([], "STU001", "Present", 19000, 32400)
         == [AttendanceRow("STU001", 19000, Some(32400), None, "Present")]
  {
    assert !HasMark([], "STU001", 19000);
  }

  /**
   * The first mark of the day inserts one check-in row; a later mark adds
   * no row, and sets the check-out time on that day's row when it has a
   * check-in. Rows of other students or other days are never touched.
   */
  lemma MarkAttendanceEffect(rows: seq<AttendanceRow>, studentId: string, status: string, today: int, now: int)
    ensures var r := MarkAttendanceSpec(rows, studentId, status, today, now);
      HasMark(r, studentId, today) &&
      (!HasMark(rows, studentId, today) ==>
        r == rows + [AttendanceRow(studentId, today, Some(now), None, status)]) &&
      (HasMark(rows, studentId, today) ==> |r| == |rows|) &&
      (HasMark(rows, studentId, today) && FirstMark(rows, studentId, today).value.timeIn.Some? ==>
        forall k :: 0 <= k < |rows| && IsMark(rows[k], studentId, today) ==> r[k].timeOut == Some(now)) &&
      forall k :: 0 <= k < |rows| && !IsMark(rows[k], studentId, today) ==> r[k] == rows[k]
  {
    var r := MarkAttendanceSpec(rows, studentId, status, today, now);
    var row := AttendanceRow(studentId, today, Some(now), None, status);
    if !HasMark(rows, studentId, today) {
      assert IsMark(r[|rows|], studentId, today);
    } else {
      var k :| 0 <= k < |rows| && IsMark(rows[k], studentId, today);
      assert IsMark(r[k], studentId, today);
    }
  }

  /** `mark_attendance` never creates a second row for a (student, date) pair. */
  lemma MarkAttendanceKeepsOneMarkPerDay(rows: seq<AttendanceRow>, studentId: string, status: string, today: int, now: int)
    requires OneMarkPerDay(rows)
    ensures OneMarkPerDay(MarkAttendanceSpec(rows, studentId, status, today, now))
  {
    var r := MarkAttendanceSpec(rows, studentId, status, today, now);
    if HasMark(rows, studentId, today) {
      forall i, j | 0 <= i < j < |r| ensures !(r[i].studentId == r[j].studentId && r[i].date == r[j].date) {
        assert r[i].studentId == rows[i].studentId && r[i].date == rows[i].date;
        assert r[j].studentId == rows[j].studentId && r[j].date == rows[j].date;
      }
    } else {
      forall i, j | 0 <= i < j < |r| ensures !(r[i].studentId == r[j].studentId && r[i].date == r[j].date) {
        if j == |rows| {
          assert !IsMark(rows[i], studentId, today);
        } else {
          assert r[i] == rows[i] && r[j] == rows[j];
        }
      }
    }
  }

  /** Checking in and then out on the same day leaves one row holding both times. */
  lemma CheckInThenCheckOut(rows: seq<AttendanceRow>, studentId: string, status1: string, status2: string,
                            today: int, t1: int, t2: int)
    requires !HasMark(rows, studentId, today)
    ensures MarkAttendanceSpec(MarkAttendanceSpec(rows, studentId, status1, today, t1), studentId, status2, today, t2)
         == rows + [AttendanceRow(studentId, today, Some(t1), Some(t2), status1)]
  {
    var row := AttendanceRow(studentId, today, Some(t1), None, status1);
    var once := rows + [row];
    assert IsMark(once[|rows|], studentId, today);
    var first := FirstMark(once, studentId, today);
    assert first.value == row by {
      FirstMarkOfAppend(rows, row, studentId, today);
    }
    var twice := SetTimeOut(once, studentId, today, t2);
    forall k | 0 <= k < |rows| ensures twice[k] == rows[k] {
      assert !IsMark(rows[k], studentId, today);
    }
    assert twice == rows + [row.(timeOut := Some(t2))];
  }

  lemma {:induction false} FirstMarkOfAppend(rows: seq<AttendanceRow>, row: AttendanceRow, studentId: string, date: int)
    requires !HasMark(rows, studentId, date) && IsMark(row, studentId, date)
    ensures FirstMark(rows + [row], studentId, date) == Some(row)
  {
    if rows == [] {
      assert [row][0] == row;
    } else {
      assert (rows + [row])[1..] == rows[1..] + [row];
      assert !IsMark(rows[0], studentId, date);
      assert !HasMark(rows[1..], studentId, date) by {
        forall j | 0 <= j < |rows[1..]| ensures !IsMark(rows[1..][j], studentId, date) {
          assert rows[1..][j] == rows[j + 1];
        }
      }
      FirstMarkOfAppend(rows[1..], row, studentId, date);
    }
  }

  // ---------------------------------------------------------------------
  // delete_student
  // ---------------------------------------------------------------------

  function AttendanceKey(a: AttendanceRow): string { a.studentId }

  function StudentKey(s: StudentRow): string { s.studentId }

  /**
   * `DELETE FROM <table> WHERE student_id = ?`, for either table given the
   * column holding the student id: exactly the rows of other students stay.
   */
  function WithoutStudent<R(!new)>(rows: seq<R>, key: R -> string, studentId: string): (r: seq<R>)
    ensures |r| <= |rows|
    ensures forall x :: x in r <==> x in rows && key(x) != studentId
  {
    if rows == [] then []
    else
      assert rows == [rows[0]] + rows[1..];
      (if key(rows[0]) == studentId then [] else [rows[0]]) + WithoutStudent(rows[1..], key, studentId)
  }

  /** Deleting drops exactly the rows of the id: every other row keeps its number of occurrences. */
  lemma {:induction false} WithoutStudentCounts<R(!new)>(rows: seq<R>, key: R -> string, studentId: string)
    ensures forall x :: multiset(WithoutStudent(rows, key, studentId))[x] ==
                        if key(x) == studentId then 0 else multiset(rows)[x]
  {
    if rows != [] {
      WithoutStudentCounts(rows[1..], key, studentId);
      assert rows == [rows[0]] + rows[1..];
    }
  }

  /** A table without rows of the id is left as it was. */
  lemma {:induction false} WithoutAbsentStudent<R(!new)>(rows: seq<R>, key: R -> string, studentId: string)
    requires forall k :: 0 <= k < |rows| ==> key(rows[k]) != studentId
    ensures WithoutStudent(rows, key, studentId) == rows
  {
    if rows != [] {
      assert forall k :: 0 <= k < |rows[1..]| ==> rows[1..][k] == rows[k + 1];
      WithoutAbsentStudent(rows[1..], key, studentId);
      assert rows == [rows[0]] + rows[1..];
    }
  }

  // ---------------------------------------------------------------------
  // get_attendance_records
  // ---------------------------------------------------------------------

  function View(s: StudentRow, a: AttendanceRow): RecordView
  {
    RecordView(s.name, s.studentId, a.date, a.timeIn, a.timeOut, a.status)
  }

  /** The students joined to one attendance row, in table order. */
  function JoinRow(a: AttendanceRow, students: seq<StudentRow>): (r: seq<RecordView>)
    ensures forall v :: v in r <==> exists s :: s in students && s.studentId == a.studentId && v == View(s, a)
  {
    if students == [] then []
    else
      var rest := JoinRow(a, students[1..]);
      assert students == [students[0]] + students[1..];
      (if students[0].studentId == a.studentId then [View(students[0], a)] else []) + rest
  }

  /** `attendance a JOIN students s ON a.student_id = s.student_id`, in attendance order. */
  function Join(rows: seq<AttendanceRow>, students: seq<StudentRow>): (r: seq<RecordView>)
    ensures forall v :: v in r <==>
      exists a, s :: a in rows && s in students && s.studentId == a.studentId && v == View(s, a)
  {
    if rows == [] then []
    else
      assert rows == [rows[0]] + rows[1..];
      JoinRow(rows[0], students) + Join(rows[1..], students)
  }

  /** `WHERE a.date = ?`. */
  function AttendanceOn(rows: seq<AttendanceRow>, date: int): (r: seq<AttendanceRow>)
    ensures forall x :: x in r <==> x in rows && x.date == date
  {
    if rows == [] then []
    else
      assert rows == [rows[0]] + rows[1..];
      (if rows[0].date == date then [rows[0]] else []) + AttendanceOn(rows[1..], date)
  }

  /** SQLite's ascending order on a nullable time: NULL first. */
  predicate TimeNoLater(x: Option<int>, y: Option<int>)
  {
    x.None? || (y.Some? && x.value <= y.value)
  }

  /** `ORDER BY a.time_in`. */
  predicate ByTimeIn(a: RecordView, b: RecordView)
  {
    TimeNoLater(a.timeIn, b.timeIn)
  }

  /** `ORDER BY a.date DESC, a.time_in`. */
  predicate ByDateDescThenTimeIn(a: RecordView, b: RecordView)
  {
    a.date > b.date || (a.date == b.date && TimeNoLater(a.timeIn, b.timeIn))
  }

  lemma RecordOrders()
    ensures Total(ByTimeIn) && Transitive(ByTimeIn)
    ensures Total(ByDateDescThenTimeIn) && Transitive(ByDateDescThenTimeIn)
  {
  }

  /** Sorting by a total preorder keeps the same records and puts them in order. */
  lemma SortRecords(j: seq<RecordView>, le: (RecordView, RecordView) -> bool)
    requires Total(le) && Transitive(le)
    ensures multiset(SortBy(j, le)) == multiset(j)
    ensures forall v :: v in SortBy(j, le) <==> v in j
    ensures forall i, k :: 0 <= i < k < |SortBy(j, le)| ==> le(SortBy(j, le)[i], SortBy(j, le)[k])
  {
    SortByPermutes(j, le);
    SortBySorted(j, le);
    forall v ensures v in SortBy(j, le) <==> v in j {
      assert v in SortBy(j, le) <==> v in multiset(SortBy(j, le));
    }
  }

  /**
   * The query's result: a record is returned iff it joins an attendance row
   * (of the requested date, if any) to a student with the same id, as often
   * as the join yields it. With a date it is ordered by check-in time, NULL
   * first; without one by date, newest first, then check-in time.
   */
  function AttendanceRecords(attendance: seq<AttendanceRow>, students: seq<StudentRow>, date: Option<int>)
    : (r: seq<RecordView>)
    ensures forall v :: v in r <==>
      exists a, s :: a in attendance && s in students && s.studentId == a.studentId &&
        (date.Some? ==> a.date == date.value) && v == View(s, a)
    ensures date.Some? ==>
      multiset(r) == multiset(Join(AttendanceOn(attendance, date.value), students)) &&
      forall i, j :: 0 <= i < j < |r| ==> TimeNoLater(r[i].timeIn, r[j].timeIn)
    ensures date.None? ==>
      multiset(r) == multiset(Join(attendance, students)) &&
      forall i, j :: 0 <= i < j < |r| ==> ByDateDescThenTimeIn(r[i], r[j])
  {
    RecordOrders();
    match date
    case Some(d) =>
      var j := Join(AttendanceOn(attendance, d), students);
      SortRecords(j, ByTimeIn);
      SortBy(j, ByTimeIn)
    case None =>
      var j := Join(attendance, students);
      SortRecords(j, ByDateDescThenTimeIn);
      SortBy(j, ByDateDescThenTimeIn)
  }

  /** After `delete_student`, the query returns no record of that student. */
  lemma DeletedStudentIsNotListed(attendance: seq<AttendanceRow>, students: seq<StudentRow>, studentId: string,
                                  date: Option<int>)
    ensures forall v :: v in AttendanceRecords(WithoutStudent(attendance, AttendanceKey, studentId),
                                               WithoutStudent(students, StudentKey, studentId), date)
                        ==> v.studentId != studentId
  {
  }

  // ---------------------------------------------------------------------
  // The database manager
  // ---------------------------------------------------------------------

  class DatabaseManager {
    var students: seq<StudentRow>
    var attendance: seq<AttendanceRow>

    /** The UNIQUE constraint holds, and no student has two rows for one day. */
    ghost predicate Valid()
      reads this
    {
      UniqueStudentIds(students) && OneMarkPerDay(attendance)
    }

    /** Opens the database: the tables are created when missing, and kept as they are otherwise. */
    constructor(existingStudents: seq<StudentRow>, existingAttendance: seq<AttendanceRow>)
      ensures students == existingStudents && attendance == existingAttendance
      ensures UniqueStudentIds(existingStudents) && OneMarkPerDay(existingAttendance) ==> Valid()
    {
      students := existingStudents;
      attendance := existingAttendance;
    }

    /**
     * `INSERT INTO students`: refused (False, tables unchanged) when
     * `student_id` or `name` is NULL or the id is already taken.
     */
    method AddStudent(studentId: Option<string>, name: Option<string>, email: Option<string>,
                      phone: Option<string>, department: Option<string>, faceEncoding: Option<seq<bv8>>)
      returns (ok: bool)
      modifies this
      ensures ok <==> studentId.Some? && name.Some? && !HasStudentId(old(students), studentId.value)
      ensures ok ==>
        students == old(students) + [StudentRow(studentId.value, name.value, email, phone, department, faceEncoding)]
      ensures !ok ==> students == old(students)
      ensures attendance == old(attendance)
      ensures old(Valid()) ==> Valid()
    {
      if studentId.None? || name.None? {
        return false;
      }
      if exists i :: 0 <= i < |students| && students[i].studentId == studentId.value {
        return false;
      }
      var row := StudentRow(studentId.value, name.value, email, phone, department, faceEncoding);
      ghost var before := students;
      students := students + [row];
      forall i, j | 0 <= i < j < |students| && UniqueStudentIds(before)
        ensures students[i].studentId != students[j].studentId
      {
        assert students[i] == before[i];
      }
      ok := true;
    }

    /**
     * Check in, or check out when already checked in today, and return True:
     * `mark_attendance` as it is meant to work, with the time bound as text.
     * `MarkAttendanceAsWritten` states what the code as written does.
     */
    method MarkAttendance(studentId: string, status: string, today: int, now: int) returns (ok: bool)
      modifies this
      ensures ok
      ensures students == old(students)
      ensures attendance == MarkAttendanceSpec(old(attendance), studentId, status, today, now)
      ensures old(Valid()) ==> Valid()
    {
      if OneMarkPerDay(attendance) {
        MarkAttendanceKeepsOneMarkPerDay(attendance, studentId, status, today, now);
      }
      var existing := FirstMark(attendance, studentId, today);
      if existing.Some? {
        if existing.value.timeIn.Some? {
          ghost var before := attendance;
          var i := 0;
          while i < |attendance|
            invariant 0 <= i <= |attendance| == |before|
            invariant students == old(students)
            invariant forall k :: 0 <= k < i ==> attendance[k] == Touch(before[k], studentId, today, now)
            invariant forall k :: i <= k < |attendance| ==> attendance[k] == before[k]
          {
            if attendance[i].studentId == studentId && attendance[i].date == today {
              attendance := attendance[i := attendance[i].(timeOut := Some(now))];
            }
            i := i + 1;
          }
          assert attendance == SetTimeOut(before, studentId, today, now);
        }
      } else {
        attendance := attendance + [AttendanceRow(studentId, today, Some(now), None, status)];
      }
      ok := true;
    }

    /** Deletes the student's attendance rows, then the student; always True. */
    method DeleteStudent(studentId: string) returns (ok: bool)
      modifies this
      ensures ok
      ensures attendance == WithoutStudent(old(attendance), AttendanceKey, studentId)
      ensures students == WithoutStudent(old(students), StudentKey, studentId)
      ensures old(Valid()) ==> Valid()
    {
      if Valid() {
        DeleteKeepsValid(students, attendance, studentId);
      }
      attendance := WithoutStudent(attendance, AttendanceKey, studentId);
      students := WithoutStudent(students, StudentKey, studentId);
      ok := true;
    }

    /** `get_attendance_records(date)` on the current tables. */
    function GetAttendanceRecords(date: Option<int>): (r: seq<RecordView>)
      reads this
      ensures forall v :: v in r <==>
        exists a, s :: a in attendance && s in students && s.studentId == a.studentId &&
          (date.Some? ==> a.date == date.value) && v == View(s, a)
      ensures date.Some? ==> forall i, j :: 0 <= i < j < |r| ==> TimeNoLater(r[i].timeIn, r[j].timeIn)
      ensures date.None? ==> forall i, j :: 0 <= i < j < |r| ==> ByDateDescThenTimeIn(r[i], r[j])
    {
      AttendanceRecords(attendance, students, date)
    }
  }

  lemma {:induction false} DeleteKeepsValid(students: seq<StudentRow>, attendance: seq<AttendanceRow>, studentId: string)
    requires UniqueStudentIds(students) && OneMarkPerDay(attendance)
    ensures UniqueStudentIds(WithoutStudent(students, StudentKey, studentId))
    ensures OneMarkPerDay(WithoutStudent(attendance, AttendanceKey, studentId))
  {
    AttendanceWithoutKeepsOneMarkPerDay(attendance, studentId);
    StudentsWithoutKeepsUnique(students, studentId);
  }

  predicate SameDay(x: AttendanceRow, y: AttendanceRow)
  {
    x.studentId == y.studentId && x.date == y.date
  }

  lemma OneMarkPerDayTail(rows: seq<AttendanceRow>)
    requires rows != [] && OneMarkPerDay(rows)
    ensures OneMarkPerDay(rows[1..])
    ensures forall y :: y in rows[1..] ==> !SameDay(rows[0], y)
  {
    forall y | y in rows[1..] ensures !SameDay(rows[0], y) {
      var m :| 0 <= m < |rows[1..]| && rows[1..][m] == y;
      assert rows[m + 1] == y;
    }
    forall i, j | 0 <= i < j < |rows[1..]| ensures !SameDay(rows[1..][i], rows[1..][j]) {
      assert rows[1..][i] == rows[i + 1] && rows[1..][j] == rows[j + 1];
    }
  }

  lemma OneMarkPerDayCons(x: AttendanceRow, t: seq<AttendanceRow>)
    requires OneMarkPerDay(t)
    requires forall y :: y in t ==> !SameDay(x, y)
    ensures OneMarkPerDay([x] + t)
  {
    var r := [x] + t;
    forall i, j | 0 <= i < j < |r| ensures !SameDay(r[i], r[j]) {
      assert r[j] == t[j - 1];
      if i > 0 {
        assert r[i] == t[i - 1];
      }
    }
  }

  lemma {:induction false} AttendanceWithoutKeepsOneMarkPerDay(rows: seq<AttendanceRow>, studentId: string)
    requires OneMarkPerDay(rows)
    ensures OneMarkPerDay(WithoutStudent(rows, AttendanceKey, studentId))
  {
    if rows != [] {
      OneMarkPerDayTail(rows);
      AttendanceWithoutKeepsOneMarkPerDay(rows[1..], studentId);
      if rows[0].studentId != studentId {
        OneMarkPerDayCons(rows[0], WithoutStudent(rows[1..], AttendanceKey, studentId));
      }
    }
  }

  lemma UniqueStudentIdsTail(rows: seq<StudentRow>)
    requires rows != [] && UniqueStudentIds(rows)
    ensures UniqueStudentIds(rows[1..])
    ensures forall y :: y in rows[1..] ==> rows[0].studentId != y.studentId
  {
    forall y | y in rows[1..] ensures rows[0].studentId != y.studentId {
      var m :| 0 <= m < |rows[1..]| && rows[1..][m] == y;
      assert rows[m + 1] == y;
    }
    forall i, j | 0 <= i < j < |rows[1..]| ensures rows[1..][i].studentId != rows[1..][j].studentId {
      assert rows[1..][i] == rows[i + 1] && rows[1..][j] == rows[j + 1];
    }
  }

  lemma UniqueStudentIdsCons(x: StudentRow, t: seq<StudentRow>)
    requires UniqueStudentIds(t)
    requires forall y :: y in t ==> x.studentId != y.studentId
    ensures UniqueStudentIds([x] + t)
  {
    var r := [x] + t;
    forall i, j | 0 <= i < j < |r| ensures r[i].studentId != r[j].studentId {
      assert r[j] == t[j - 1];
      if i > 0 {
        assert r[i] == t[i - 1];
      }
    }
  }

  lemma {:induction false} StudentsWithoutKeepsUnique(rows: seq<StudentRow>, studentId: string)
    requires UniqueStudentIds(rows)
    ensures UniqueStudentIds(WithoutStudent(rows, StudentKey, studentId))
  {
    if rows != [] {
      UniqueStudentIdsTail(rows);
      StudentsWithoutKeepsUnique(rows[1..], studentId);
      if rows[0].studentId != studentId {
        UniqueStudentIdsCons(rows[0], WithoutStudent(rows[1..], StudentKey, studentId));
      }
    }
  }
}
