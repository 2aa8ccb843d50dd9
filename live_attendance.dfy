/**
 * The session list of the "Live Attendance" page: at most one entry per
 * student, newest first, with deletion by position, the two list filters,
 * the list for a chosen date, and the totals of the daily export.
 */
module LiveAttendance {
  import opened Common
  import opened Text
  import opened Stored
  import opened Dashboard

  /** A date (day number) and a time of day (seconds since midnight). */
  datatype Stamp = Stamp(date: int, time: int)

  /** An entry of the session list; a missing status is `None`. */
  datatype LiveEntry = LiveEntry(
    name: string,
    studentId: string,
    department: string,
    timestamp: Stamp,
    status: Option<string>)

  predicate HasStudent(entries: seq<LiveEntry>, id: string)
  {
    exists i :: 0 <= i < |entries| && entries[i].studentId == id
  }

  predicate DistinctStudents(entries: seq<LiveEntry>)
  {
    forall i, j :: 0 <= i < j < |entries| ==> entries[i].studentId != entries[j].studentId
  }

  /** `find` on `student_id`: the first matching entry, if any. */
  function Find(entries: seq<LiveEntry>, id: string): (r: Option<LiveEntry>)
    ensures r.Some? ==> r.value in entries && r.value.studentId == id
    ensures r.None? <==> !HasStudent(entries, id)
  {
    if entries == [] then None
    else if entries[0].studentId == id then Some(entries[0])
    else
      var r := Find(entries[1..], id);
      assert forall j :: 0 < j < |entries| ==> entries[j] == entries[1..][j - 1];
      r
  }

  /** The start position of `splice(index, 1)` on a list of length `len`. */
  function SpliceStart(index: int, len: nat): (start: nat)
    ensures start <= len
    ensures 0 <= index ==> start == Min(index, len)
    ensures index < 0 ==> start == Max(len + index, 0)
  {
    if index < 0 then (if len + index > 0 then len + index else 0)
    else if index < len then index else len
  }

  /** What `splice(index, 1)` leaves behind. */
  function Spliced<T>(s: seq<T>, index: int): (r: seq<T>)
    ensures var start := SpliceStart(index, |s|);
      start < |s| ==> r == s[..start] + s[start + 1..]
    ensures SpliceStart(index, |s|) == |s| ==> r == s
  {
    var start := SpliceStart(index, |s|);
    var deleteCount := Min(1, |s| - start);
    s[..start] + s[start + deleteCount..]
  }

  /** An index in range removes exactly that entry. */
  lemma SplicedInRange<T>(s: seq<T>, index: int)
    requires 0 <= index < |s|
    ensures Spliced(s, index) == s[..index] + s[index + 1..]
    ensures |Spliced(s, index)| == |s| - 1
    ensures forall j :: 0 <= j < |s| - 1 ==> Spliced(s, index)[j] == if j < index then s[j] else s[j + 1]
  {
  }

  /** A negative index counts from the end; one at or past the end removes nothing. */
  lemma SplicedOutOfRange<T>(s: seq<T>, index: int)
    ensures index >= |s| ==> Spliced(s, index) == s
    ensures -|s| <= index < 0 ==> Spliced(s, index) == s[..|s| + index] + s[|s| + index + 1..]
    ensures index < -|s| && s != [] ==> Spliced(s, index) == s[1..]
  {
  }

  lemma SplicedKeepsDistinct(s: seq<LiveEntry>, index: int)
    requires DistinctStudents(s)
    ensures DistinctStudents(Spliced(s, index))
  {
    var start := SpliceStart(index, |s|);
    var r := Spliced(s, index);
    if start < |s| {
      forall i, j | 0 <= i < j < |r| ensures r[i].studentId != r[j].studentId {
        var i' := if i < start then i else i + 1;
        var j' := if j < start then j else j + 1;
        assert r[i] == s[i'] && r[j] == s[j'];
      }
    }
  }

  class LiveSession {
    /** The session's entries, newest first. */
    var entries: seq<LiveEntry>

    /** No student appears twice in the list. */
    ghost predicate Valid()
      reads this
    {
      DistinctStudents(entries)
    }

    /** Starts from today's stored list, or from an empty one when nothing is stored. */
    constructor(stored: Option<seq<LiveEntry>>)
      ensures entries == if stored.Some? then stored.value else []
      ensures stored.None? || DistinctStudents(stored.value) ==> Valid()
    {
      if stored.Some? {
        entries := stored.value;
      } else {
        entries := [];
      }
    }

    /**
     * A recognised student is put at the front of the list, marked
     * present, unless the list already holds an entry with that id.
     */
    method AddRealAttendance(student: Student, now: Stamp)
      modifies this
      ensures HasStudent(old(entries), student.id) ==> entries == old(entries)
      ensures !HasStudent(old(entries), student.id) ==>
        entries == [LiveEntry(student.name, student.id, OrDefault(student.department, "N/A"), now, Some(Present))]
                   + old(entries)
      ensures old(Valid()) ==> Valid()
    {
      var existing := Find(entries, student.id);
      if existing.None? {
        var entry := LiveEntry(student.name, student.id, OrDefault(student.department, "N/A"), now, Some(Present));
        if Valid() {
          PrependKeepsDistinct(entry, entries);
        }
        entries := [entry] + entries;
      }
    }

    /** After the confirm dialog, `splice(index, 1)` on the list. */
    method DeleteAttendance(index: int, confirmed: bool)
      modifies this
      ensures !confirmed ==> entries == old(entries)
      ensures confirmed ==> entries == Spliced(old(entries), index)
      ensures old(Valid()) ==> Valid()
    {
      if confirmed {
        if Valid() {
          SplicedKeepsDistinct(entries, index);
        }
        entries := Spliced(entries, index);
      }
    }
  }

  lemma PrependKeepsDistinct(e: LiveEntry, s: seq<LiveEntry>)
    requires DistinctStudents(s) && !HasStudent(s, e.studentId)
    ensures DistinctStudents([e] + s)
  {
    var t := [e] + s;
    forall i, j | 0 <= i < j < |t| ensures t[i].studentId != t[j].studentId {
      assert t[j] == s[j - 1];
      if i > 0 {
        assert t[i] == s[i - 1];
      }
    }
  }

  // ---------------------------------------------------------------------
  // List filters
  // ---------------------------------------------------------------------

  /** The status an item is rendered with: a missing or empty status reads 'present'. */
  function DataStatus(e: LiveEntry): string
  {
    OrDefault(e.status, Present)
  }

  /**
   * The search box: an item is shown iff the lowercased term occurs in its
   * lowercased name; an empty term shows every item.
   */
  predicate SearchVisible(e: LiveEntry, searchTerm: string): (b: bool)
    ensures b <==> Occurs(Lower(e.name), Lower(searchTerm))
    ensures searchTerm == "" ==> b
  {
    NameMatches(e.name, searchTerm)
  }

  /**
   * The status select: 'all' shows every item; any other choice shows the
   * items whose status equals it, a missing or empty status counting as
   * 'present'.
   */
  predicate StatusVisible(e: LiveEntry, status: string): (b: bool)
    ensures status == "all" ==> b
    ensures status != "all" ==>
      (b <==>
        (e.status.Some? && e.status.value != "" && e.status.value == status) ||
        ((e.status.None? || e.status.value == "") && status == Present))
  {
    status == "all" || DataStatus(e) == status
  }

  // ---------------------------------------------------------------------
  // The list for a chosen date (loadAttendanceForDate)
  // ---------------------------------------------------------------------

  /**
   * A stored record, reshaped for the session list: the same name, id,
   * department and status, stamped with the record's own date and time.
   */
  function Format(r: AttendanceRecord): (e: LiveEntry)
    ensures e.name == r.name && e.studentId == r.studentId && e.department == r.department
    ensures e.timestamp.date == r.date && e.timestamp.time == r.time
    ensures e.status == Some(r.status)
  {
    LiveEntry(r.name, r.studentId, r.department, Stamp(r.date, r.time), Some(r.status))
  }

  datatype DayView = DayView(entries: seq<LiveEntry>, count: nat)

  /**
   * The stored records of the date, in stored order, each reshaped for the
   * list, and their number.
   */
  function LoadAttendanceForDate(att: seq<AttendanceRecord>, date: int): (v: DayView)
    ensures v.count == |v.entries| == |OnDate(att, date)|
    ensures forall i :: 0 <= i < |v.entries| ==> v.entries[i] == Format(OnDate(att, date)[i])
    ensures forall e :: e in v.entries ==> e.timestamp.date == date
    ensures forall r :: r in att && r.date == date ==> Format(r) in v.entries
  {
    var day := OnDate(att, date);
    var shown := seq(|day|, i requires 0 <= i < |day| => Format(day[i]));
    assert forall r :: r in day ==> Format(r) in shown by {
      forall r | r in day ensures Format(r) in shown {
        var i :| 0 <= i < |day| && day[i] == r;
        assert shown[i] == Format(r);
      }
    }
    DayView(shown, |day|)
  }

  // ---------------------------------------------------------------------
  // Totals of the daily export (exportDailyExcel)
  // ---------------------------------------------------------------------

  /** A JavaScript number as far as the export can produce one. */
  datatype JsNumber = Num(value: real) | NaN | Infinity

  datatype ExportSummary = ExportSummary(
    date: int,
    records: seq<AttendanceRecord>,
    totalPresent: nat,
    totalStudents: nat,
    rate: JsNumber)

  /**
   * The chosen date (today when the date box is empty), its records, the
   * number of them marked present, and `present / students * 100` with
   * no guard against an empty student list.
   */
  function DailyExport(chosen: Option<int>, today: int, att: seq<AttendanceRecord>, students: seq<Student>)
    : (x: ExportSummary)
    ensures x.date == if chosen.Some? then chosen.value else today
    ensures x.records == OnDate(att, x.date)
    ensures x.totalPresent == |PresentOnDate(att, x.date)|
    ensures x.totalStudents == |students|
    ensures |students| > 0 ==> x.rate == Num(LoadStats(students, att, x.date).rate)
    ensures |students| == 0 && x.totalPresent == 0 ==> x.rate == NaN
    ensures |students| == 0 && x.totalPresent > 0 ==> x.rate == Infinity
  {
    var selectedDate := if chosen.Some? then chosen.value else today;
    var dayAttendance := OnDate(att, selectedDate);
    var present := |WithStatus(dayAttendance, Present)|;
    PresentIsStatusOfDay(att, selectedDate);
    var rate :=
      if |students| > 0 then Num(Percentage(present, |students|))
      else if present == 0 then NaN
      else Infinity;
    ExportSummary(selectedDate, dayAttendance, present, |students|, rate)
  }
}
