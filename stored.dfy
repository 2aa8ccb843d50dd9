/**
 * The two lists the browser pages keep in local storage under 'students'
 * and 'attendance', and the filters that every page applies to them.
 * A calendar date is a day number (days since 1970-01-01) and a time of
 * day is a number of seconds since midnight.
 */
module Stored {
  import opened Common

  /** An entry of the 'students' list: the pages read `id`, `name` and `department`. */
  datatype Student = Student(id: string, name: string, department: Option<string>)

  /** An entry of the 'attendance' list. */
  datatype AttendanceRecord = AttendanceRecord(
    studentId: string,
    name: string,
    department: string,
    date: int,
    time: int,
    status: string)

  const Present := "present"

  /** The records dated `day`, in their stored order. */
  function OnDate(att: seq<AttendanceRecord>, day: int): (r: seq<AttendanceRecord>)
    ensures |r| <= |att|
    ensures forall x :: x in r <==> x in att && x.date == day
  {
    if att == [] then []
    else
      assert att == [att[0]] + att[1..];
      (if att[0].date == day then [att[0]] else []) + OnDate(att[1..], day)
  }

  /** The records whose status is exactly `status`, in their stored order. */
  function WithStatus(att: seq<AttendanceRecord>, status: string): (r: seq<AttendanceRecord>)
    ensures |r| <= |att|
    ensures forall x :: x in r <==> x in att && x.status == status
  {
    if att == [] then []
    else
      assert att == [att[0]] + att[1..];
      (if att[0].status == status then [att[0]] else []) + WithStatus(att[1..], status)
  }

  /** The records of `day` whose status is 'present' (one filter over both fields). */
  function PresentOnDate(att: seq<AttendanceRecord>, day: int): (r: seq<AttendanceRecord>)
    ensures |r| <= |att|
    ensures forall x :: x in r <==> x in att && x.date == day && x.status == Present
  {
    if att == [] then []
    else
      assert att == [att[0]] + att[1..];
      (if att[0].date == day && att[0].status == Present then [att[0]] else [])
        + PresentOnDate(att[1..], day)
  }

  /** The records of one student, matched on `studentId`. */
  function OfStudent(att: seq<AttendanceRecord>, id: string): (r: seq<AttendanceRecord>)
    ensures |r| <= |att|
    ensures forall x :: x in r <==> x in att && x.studentId == id
  {
    if att == [] then []
    else
      assert att == [att[0]] + att[1..];
      (if att[0].studentId == id then [att[0]] else []) + OfStudent(att[1..], id)
  }

  /** A record is kept as many times as it is stored when it is of `day`, and never otherwise. */
  lemma {:induction false} OnDateCounts(att: seq<AttendanceRecord>, day: int)
    ensures forall x :: multiset(OnDate(att, day))[x] == if x.date == day then multiset(att)[x] else 0
  {
    if att != [] {
      OnDateCounts(att[1..], day);
      assert att == [att[0]] + att[1..];
    }
  }

  /** The same multiplicity statement for the present-on-a-day filter. */
  lemma {:induction false} PresentOnDateCounts(att: seq<AttendanceRecord>, day: int)
    ensures forall x :: multiset(PresentOnDate(att, day))[x] ==
                        if x.date == day && x.status == Present then multiset(att)[x] else 0
  {
    if att != [] {
      PresentOnDateCounts(att[1..], day);
      assert att == [att[0]] + att[1..];
    }
  }

  /** Filtering by date and then by status is the single two-field filter. */
  lemma {:induction false} PresentIsStatusOfDay(att: seq<AttendanceRecord>, day: int)
    ensures WithStatus(OnDate(att, day), Present) == PresentOnDate(att, day)
  {
    if att != [] {
      PresentIsStatusOfDay(att[1..], day);
      if att[0].date == day {
        assert OnDate(att, day) == [att[0]] + OnDate(att[1..], day);
        WithStatusCons(att[0], OnDate(att[1..], day), Present);
      } else {
        assert OnDate(att, day) == OnDate(att[1..], day);
        assert PresentOnDate(att, day) == PresentOnDate(att[1..], day);
      }
    }
  }

  lemma WithStatusCons(x: AttendanceRecord, r: seq<AttendanceRecord>, status: string)
    ensures WithStatus([x] + r, status) == (if x.status == status then [x] else []) + WithStatus(r, status)
  {
    assert ([x] + r)[1..] == r;
  }
}
