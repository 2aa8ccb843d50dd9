/**
 * The student registry of the "Manage Students" page: an in-memory list
 * of records keyed by `student_id`, with add, edit and delete, and the two
 * row filters of the list view.
 */
module ManageStudents {
  import opened Common
  import opened Text

  datatype StudentRecord = StudentRecord(
    studentId: string,
    name: string,
    email: string,
    phone: string,
    department: string,
    createdAt: int)

  /** The raw values of the add and edit forms (the department comes from a select box). */
  datatype StudentForm = StudentForm(
    studentId: string,
    name: string,
    email: string,
    phone: string,
    department: string)

  datatype AddOutcome = Added | MissingRequired | DuplicateId

  predicate UniqueIds(s: seq<StudentRecord>)
  {
    forall i, j :: 0 <= i < j < |s| ==> s[i].studentId != s[j].studentId
  }

  predicate HasId(s: seq<StudentRecord>, id: string)
  {
    exists i :: 0 <= i < |s| && s[i].studentId == id
  }

  /** `findIndex` on `student_id`: the first match, or -1. */
  function FindIndex(s: seq<StudentRecord>, id: string): (r: int)
    ensures -1 <= r < |s|
    ensures r >= 0 ==> s[r].studentId == id && forall j :: 0 <= j < r ==> s[j].studentId != id
    ensures r == -1 <==> !HasId(s, id)
  {
    if s == [] then -1
    else if s[0].studentId == id then 0
    else
      var k := FindIndex(s[1..], id);
      assert forall j :: 0 < j < |s| ==> s[j] == s[1..][j - 1];
      if k == -1 then -1 else k + 1
  }

  /** The list without the records of `id`, the others in their order. */
  function WithoutId(s: seq<StudentRecord>, id: string): (r: seq<StudentRecord>)
    ensures |r| <= |s|
    ensures forall x :: x in r <==> x in s && x.studentId != id
  {
    if s == [] then []
    else
      assert s == [s[0]] + s[1..];
      (if s[0].studentId == id then [] else [s[0]]) + WithoutId(s[1..], id)
  }

  /** Deleting an id that is not in the list leaves it as it was. */
  lemma {:induction false} WithoutAbsentId(s: seq<StudentRecord>, id: string)
    requires !HasId(s, id)
    ensures WithoutId(s, id) == s
  {
    if s != [] {
      HasIdOfTail(s, id);
      WithoutAbsentId(s[1..], id);
      assert s == [s[0]] + s[1..];
    }
  }

  /** With unique ids, deleting the id at index i removes exactly that one record. */
  lemma {:induction false} WithoutIdRemovesOne(s: seq<StudentRecord>, i: nat)
    requires i < |s| && UniqueIds(s)
    ensures WithoutId(s, s[i].studentId) == s[..i] + s[i + 1..]
  {
    var id := s[i].studentId;
    if i == 0 {
      forall j | 0 <= j < |s[1..]| ensures s[1..][j].studentId != id {
        assert s[1..][j] == s[j + 1];
      }
      WithoutAbsentId(s[1..], id);
    } else {
      assert s[1..][i - 1] == s[i];
      WithoutIdRemovesOne(s[1..], i - 1);
      assert s[0].studentId != id;
      assert s[..i] == [s[0]] + s[1..][..i - 1];
      assert s[i + 1..] == s[1..][i..];
    }
  }

  lemma HasIdOfTail(s: seq<StudentRecord>, id: string)
    requires s != []
    ensures HasId(s[1..], id) ==> HasId(s, id)
  {
    if HasId(s[1..], id) {
      var i :| 0 <= i < |s[1..]| && s[1..][i].studentId == id;
      assert s[i + 1].studentId == id;
    }
  }

  /** Deleting keeps the ids unique, and the deleted id is gone. */
  lemma {:induction false} WithoutIdKeepsUnique(s: seq<StudentRecord>, id: string)
    requires UniqueIds(s)
    ensures UniqueIds(WithoutId(s, id)) && !HasId(WithoutId(s, id), id)
  {
    var r := WithoutId(s, id);
    forall i | 0 <= i < |r| ensures r[i].studentId != id {
      assert r[i] in r;
    }
    if s != [] {
      var t := WithoutId(s[1..], id);
      assert UniqueIds(s[1..]) by {
        forall i, j | 0 <= i < j < |s[1..]| ensures s[1..][i].studentId != s[1..][j].studentId {
          assert s[1..][i] == s[i + 1] && s[1..][j] == s[j + 1];
        }
      }
      WithoutIdKeepsUnique(s[1..], id);
      if s[0].studentId != id {
        forall k | 0 <= k < |t| ensures t[k].studentId != s[0].studentId {
          assert t[k] in s[1..];
          var m :| 0 <= m < |s[1..]| && s[1..][m] == t[k];
          assert s[m + 1] == t[k];
        }
        UniqueCons(s[0], t);
      }
    }
  }

  lemma UniqueCons(x: StudentRecord, r: seq<StudentRecord>)
    requires UniqueIds(r)
    requires forall k :: 0 <= k < |r| ==> r[k].studentId != x.studentId
    ensures UniqueIds([x] + r)
  {
    var s := [x] + r;
    forall i, j | 0 <= i < j < |s| ensures s[i].studentId != s[j].studentId {
      assert s[j] == r[j - 1];
      if i > 0 {
        assert s[i] == r[i - 1];
      }
    }
  }

  lemma AppendKeepsUnique(s: seq<StudentRecord>, x: StudentRecord)
    requires UniqueIds(s) && !HasId(s, x.studentId)
    ensures UniqueIds(s + [x])
  {
    var t := s + [x];
    forall i, j | 0 <= i < j < |t| ensures t[i].studentId != t[j].studentId {
      assert t[i] == s[i];
      if j < |s| {
        assert t[j] == s[j];
      }
    }
  }

  /** The sample list saved when nothing is stored yet. */
  function SampleStudents(now: int): (r: seq<StudentRecord>)
    ensures UniqueIds(r)
  {
    [StudentRecord("STU001", "John Smith", "john.smith@email.com", "+1234567890", "Computer Science", now),
     StudentRecord("STU002", "Sarah Johnson", "sarah.johnson@email.com", "+1234567891", "Information Technology", now)]
  }

  class StudentManager {
    var students: seq<StudentRecord>

    /** Every `student_id` occurs once. */
    ghost predicate Valid()
      reads this
    {
      UniqueIds(students)
    }

    /**
     * Loads the stored list, or, when nothing is stored, starts from the
     * two sample students created at `now`.
     */
    constructor(stored: Option<seq<StudentRecord>>, now: int)
      ensures stored.Some? ==> students == stored.value
      ensures stored.None? ==> students == SampleStudents(now)
      ensures stored.None? || UniqueIds(stored.value) ==> Valid()
    {
      if stored.Some? {
        students := stored.value;
      } else {
        students := SampleStudents(now);
      }
    }

    /**
     * Trims the form, refuses an empty id or name and an id already in
     * the list, and otherwise appends the new record.
     */
    method HandleAddStudent(form: StudentForm, now: int) returns (outcome: AddOutcome)
      modifies this
      ensures var id := Trim(form.studentId);
              var name := Trim(form.name);
              if id == "" || name == "" then
                outcome == MissingRequired && students == old(students)
              else if HasId(old(students), id) then
                outcome == DuplicateId && students == old(students)
              else
                outcome == Added &&
                students == old(students) +
                  [StudentRecord(id, name, Trim(form.email), Trim(form.phone), form.department, now)]
      ensures old(Valid()) ==> Valid()
    {
      var studentId := Trim(form.studentId);
      var name := Trim(form.name);
      var email := Trim(form.email);
      var phone := Trim(form.phone);
      if studentId == "" || name == "" {
        return MissingRequired;
      }
      if FindIndex(students, studentId) != -1 {
        return DuplicateId;
      }
      var newStudent := StudentRecord(studentId, name, email, phone, form.department, now);
      if Valid() {
        AppendKeepsUnique(students, newStudent);
      }
      students := students + [newStudent];
      outcome := Added;
    }

    /**
     * Looks the hidden id up as it is (untrimmed) and overwrites the four
     * mutable fields of the first match; reports whether one was found.
     */
    method HandleEditStudent(form: StudentForm) returns (found: bool)
      modifies this
      ensures found <==> HasId(old(students), form.studentId)
      ensures !found ==> students == old(students)
      ensures found ==>
        var i := FindIndex(old(students), form.studentId);
        |students| == |old(students)| &&
        (forall j :: 0 <= j < |students| && j != i ==> students[j] == old(students)[j]) &&
        students[i] == old(students)[i].(name := Trim(form.name), email := Trim(form.email),
                                         phone := Trim(form.phone), department := form.department)
      ensures old(Valid()) ==> Valid()
    {
      var studentIndex := FindIndex(students, form.studentId);
      if studentIndex != -1 {
        var old_ := students[studentIndex];
        students := students[studentIndex := old_.(name := Trim(form.name), email := Trim(form.email),
                                                   phone := Trim(form.phone), department := form.department)];
        found := true;
      } else {
        found := false;
      }
    }

    /** After the confirm dialog, keeps every record whose id differs. */
    method DeleteStudent(studentId: string, confirmed: bool)
      modifies this
      ensures !confirmed ==> students == old(students)
      ensures confirmed ==> students == WithoutId(old(students), studentId)
      ensures old(Valid()) ==> Valid()
    {
      if !confirmed {
        return;
      }
      if Valid() {
        WithoutIdKeepsUnique(students, studentId);
      }
      students := WithoutId(students, studentId);
    }
  }

  // ---------------------------------------------------------------------
  // Row filters of the list view
  // ---------------------------------------------------------------------

  /**
   * The search box: a row is shown iff the lowercased term occurs in the
   * lowercased name; an empty term shows every row.
   */
  predicate NameVisible(row: StudentRecord, searchTerm: string): (b: bool)
    ensures b <==> Occurs(Lower(row.name), Lower(searchTerm))
    ensures searchTerm == "" ==> b
  {
    NameMatches(row.name, searchTerm)
  }

  /**
   * The department select: no filter shows every row; a filter shows
   * exactly the rows of that department.
   */
  predicate DepartmentVisible(row: StudentRecord, department: string): (b: bool)
    ensures department == "" ==> b
    ensures department != "" ==> (b <==> row.department == department)
  {
    department == "" || row.department == department
  }
}
