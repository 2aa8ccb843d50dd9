/**
 * The figures the dashboard derives from the stored 'students' and
 * 'attendance' lists: today's totals, the seven-day series, the
 * per-department counts, the top performers and the most recent records.
 */
module Dashboard {
  import opened Common
  import opened Text
  import opened Stored
  import opened Sorting

  // ---------------------------------------------------------------------
  // Today's figures (dashboard.js, loadStats)
  // ---------------------------------------------------------------------

  /** The four numbers shown on the dashboard cards, before formatting. */
  datatype Stats = Stats(total: nat, present: nat, absent: nat, rate: real)

  function LoadStats(students: seq<Student>, att: seq<AttendanceRecord>, today: int): (r: Stats)
    ensures r.total == |students|
    ensures r.present == |PresentOnDate(att, today)|
    ensures r.present <= r.total ==> r.present + r.absent == r.total
    ensures r.present > r.total ==> r.absent == 0
    ensures |students| == 0 ==> r.rate == 0.0
    ensures |students| > 0 ==> r.rate == Percentage(r.present, r.total)
    ensures 0.0 <= r.rate && (r.present <= r.total ==> r.rate <= 100.0)
  {
    var present := |PresentOnDate(att, today)|;
    var absent := |students| - present;
    var rate := if |students| > 0 then Percentage(present, |students|) else 0.0;
    Stats(|students|, present, Max(0, absent), rate)
  }

  /** The present count is the number of today's records whose status is 'present'. */
  lemma PresentCountsTodaysPresentRecords(students: seq<Student>, att: seq<AttendanceRecord>, today: int)
    ensures LoadStats(students, att, today).present == |WithStatus(OnDate(att, today), Present)|
  {
    PresentIsStatusOfDay(att, today);
  }

  // ---------------------------------------------------------------------
  // Seven-day series (dashboard.js, getWeeklyData)
  // ---------------------------------------------------------------------

  /**
   * Slot i holds the number of present records dated `today - (6 - i)`:
   * the series ends with today.
   */
  method GetWeeklyData(att: seq<AttendanceRecord>, today: int) returns (week: seq<nat>)
    ensures |week| == 7
    ensures forall i :: 0 <= i < 7 ==> week[i] == |PresentOnDate(att, today - (6 - i))|
    ensures week[6] == LoadStats([], att, today).present
  {
    var data := new nat[7](_ => 0);
    for i := 0 to 7
      invariant forall k :: 0 <= k < i ==> data[k] == |PresentOnDate(att, today - (6 - k))|
    {
      var day := today - (6 - i);
      data[i] := |PresentOnDate(att, day)|;
    }
    week := data[..];
  }

  // ---------------------------------------------------------------------
  // Students per department (dashboard.js, getDepartmentData)
  // ---------------------------------------------------------------------

  /** A missing or empty department is counted as 'Unknown'. */
  function DepartmentOf(s: Student): (d: string)
    ensures s.department.None? || s.department.value == "" ==> d == "Unknown"
    ensures s.department.Some? && s.department.value != "" ==> d == s.department.value
  {
    OrDefault(s.department, "Unknown")
  }

  function DepartmentsOf(students: seq<Student>): seq<string>
  {
    seq(|students|, i requires 0 <= i < |students| => DepartmentOf(students[i]))
  }

  predicate NoDuplicates<T(==)>(s: seq<T>)
  {
    forall i, j :: 0 <= i < j < |s| ==> s[i] != s[j]
  }

  /** The distinct elements of `s`, in the order of their first occurrence. */
  function Distinct<T(==,!new)>(s: seq<T>): (r: seq<T>)
    ensures NoDuplicates(r)
    ensures forall x :: x in r <==> x in s
  {
    if s == [] then []
    else
      var p := Distinct(s[..|s| - 1]);
      var x := s[|s| - 1];
      assert s == s[..|s| - 1] + [x];
      if x in p then p else p + [x]
  }

  lemma DistinctSnoc<T(!new)>(s: seq<T>, x: T)
    ensures Distinct(s + [x]) == if x in Distinct(s) then Distinct(s) else Distinct(s) + [x]
  {
    assert (s + [x])[..|s|] == s;
  }

  /** How many times each label occurs in `s`. */
  function CountsOf<T(==)>(labels: seq<T>, s: seq<T>): (r: seq<nat>)
    ensures |r| == |labels|
    ensures forall k :: 0 <= k < |labels| ==> r[k] == multiset(s)[labels[k]]
  {
    seq(|labels|, k requires 0 <= k < |labels| => multiset(s)[labels[k]])
  }

  function Sum(s: seq<nat>): nat
  {
    if s == [] then 0 else Sum(s[..|s| - 1]) + s[|s| - 1]
  }

  /**
   * Builds the department map the way the page does, one student at a
   * time, and reads off its keys (in insertion order) and its values.
   */
  method GetDepartmentData(students: seq<Student>) returns (labels: seq<string>, values: seq<nat>)
    ensures labels == Distinct(DepartmentsOf(students))
    ensures values == CountsOf(labels, DepartmentsOf(students))
  {
    ghost var depts := DepartmentsOf(students);
    var counts: map<string, nat> := map[];
    labels := [];
    var i := 0;
    while i < |students|
      invariant 0 <= i <= |students|
      invariant labels == Distinct(depts[..i])
      invariant Tallies(counts, depts[..i])
    {
      var dept := DepartmentOf(students[i]);
      assert depts[..i + 1] == depts[..i] + [dept];
      DistinctSnoc(depts[..i], dept);
      TallyStep(counts, depts[..i], dept);
      if dept !in counts {
        // a new key goes to the end of the object's key order
        labels := labels + [dept];
      }
      counts := counts[dept := (if dept in counts then counts[dept] else 0) + 1];
      i := i + 1;
    }
    assert depts[..i] == depts;
    values := seq(|labels|, k requires 0 <= k < |labels| => counts[labels[k]]);
  }

  /** `counts` maps exactly the elements of `seen` to their number of occurrences. */
  ghost predicate Tallies<T(!new)>(counts: map<T, nat>, seen: seq<T>)
  {
    forall d :: (d in counts <==> d in seen) && (d in counts ==> counts[d] == multiset(seen)[d])
  }

  lemma TallyStep<T(!new)>(counts: map<T, nat>, seen: seq<T>, x: T)
    requires Tallies(counts, seen)
    ensures Tallies(counts[x := (if x in counts then counts[x] else 0) + 1], seen + [x])
  {
    var c := counts[x := (if x in counts then counts[x] else 0) + 1];
    forall d ensures (d in c <==> d in seen + [x]) && (d in c ==> c[d] == multiset(seen + [x])[d]) {
      assert multiset(seen + [x]) == multiset(seen) + multiset{x};
    }
  }

  /**
   * The labels are distinct and are exactly the departments of the
   * students; label k's value is its number of students; the values add
   * up to the number of students.
   */
  lemma DepartmentDataSummary(students: seq<Student>)
    ensures var labels := Distinct(DepartmentsOf(students));
      var values := CountsOf(labels, DepartmentsOf(students));
      |labels| == |values| &&
      NoDuplicates(labels) &&
      (forall d :: d in labels <==> exists i :: 0 <= i < |students| && DepartmentOf(students[i]) == d) &&
      (forall k :: 0 <= k < |labels| ==> values[k] == multiset(DepartmentsOf(students))[labels[k]]) &&
      Sum(values) == |students|
  {
    var depts := DepartmentsOf(students);
    var labels := Distinct(depts);
    DistinctCountsSum(depts);
    forall i | 0 <= i < |students| ensures DepartmentOf(students[i]) in labels {
      assert depts[i] == DepartmentOf(students[i]);
    }
    forall d | d in labels ensures exists i :: 0 <= i < |students| && DepartmentOf(students[i]) == d {
      var i :| 0 <= i < |depts| && depts[i] == d;
    }
  }

  /** Over the distinct elements, the occurrence counts add up to the length. */
  lemma {:induction false} DistinctCountsSum<T(!new)>(s: seq<T>)
    ensures Sum(CountsOf(Distinct(s), s)) == |s|
  {
    if s != [] {
      var s' := s[..|s| - 1];
      var x := s[|s| - 1];
      assert s == s' + [x];
      var p := Distinct(s');
      DistinctCountsSum(s');
      CountsOfAppend(p, s', x);
      if x !in p {
        var c := CountsOf(p + [x], s);
        assert c[..|p|] == CountsOf(p, s);
        assert multiset(s')[x] == 0;
      }
    }
  }

  /** Appending `x` to the counted sequence adds one to the total when `x` is a label. */
  lemma {:induction false} CountsOfAppend<T>(labels: seq<T>, s: seq<T>, x: T)
    requires NoDuplicates(labels)
    ensures Sum(CountsOf(labels, s + [x])) == Sum(CountsOf(labels, s)) + if x in labels then 1 else 0
  {
    if labels != [] {
      var l := labels[..|labels| - 1];
      var y := labels[|labels| - 1];
      assert labels == l + [y];
      CountsOfAppend(l, s, x);
      assert CountsOf(labels, s + [x])[..|l|] == CountsOf(l, s + [x]);
      assert CountsOf(labels, s)[..|l|] == CountsOf(l, s);
      assert multiset(s + [x]) == multiset(s) + multiset{x};
    }
  }

  // ---------------------------------------------------------------------
  // Top performers (dashboard.js, loadTopPerformers)
  // ---------------------------------------------------------------------

  datatype Performer = Performer(student: Student, attendanceRate: real)

  function MinReal(a: real, b: real): real { if a <= b then a else b }

  /**
   * Ten records count as 100%; the rate is capped at 100 and is 0 while
   * the attendance list is empty.
   */
  function RateOf(s: Student, att: seq<AttendanceRecord>): (r: real)
    ensures 0.0 <= r <= 100.0
    ensures att == [] ==> r == 0.0
    ensures att != [] && |OfStudent(att, s.id)| <= 10 ==> r == |OfStudent(att, s.id)| as real * 10.0
    ensures att != [] && |OfStudent(att, s.id)| >= 10 ==> r == 100.0
  {
    if |att| > 0 then MinReal(|OfStudent(att, s.id)| as real / 10.0 * 100.0, 100.0) else 0.0
  }

  function Performers(students: seq<Student>, att: seq<AttendanceRecord>): seq<Performer>
  {
    seq(|students|, i requires 0 <= i < |students| => Performer(students[i], RateOf(students[i], att)))
  }

  /** The comparator `b.attendanceRate - a.attendanceRate`: `a` stays in front when its rate is no lower. */
  predicate RateAtLeast(a: Performer, b: Performer)
  {
    a.attendanceRate >= b.attendanceRate
  }

  lemma RateAtLeastOrders()
    ensures Total(RateAtLeast) && Transitive(RateAtLeast)
  {
  }

  function TopPerformers(students: seq<Student>, att: seq<AttendanceRecord>): (r: seq<Performer>)
    ensures |r| == Min(5, |students|)
  {
    SortBy(Performers(students, att), RateAtLeast)[..Min(5, |students|)]
  }

  /** At most five, best first, each a student of the list with its own rate in [0, 100]. */
  lemma TopPerformersShape(students: seq<Student>, att: seq<AttendanceRecord>)
    ensures var r := TopPerformers(students, att);
      |r| <= 5 &&
      (forall i, j :: 0 <= i < j < |r| ==> r[i].attendanceRate >= r[j].attendanceRate) &&
      (forall p :: p in r ==> p.student in students && p.attendanceRate == RateOf(p.student, att)) &&
      (forall p :: p in r ==> 0.0 <= p.attendanceRate <= 100.0) &&
      (att == [] ==> forall p :: p in r ==> p.attendanceRate == 0.0)
  {
    var ps := Performers(students, att);
    var sorted := SortBy(ps, RateAtLeast);
    RateAtLeastOrders();
    SortBySorted(ps, RateAtLeast);
    SortByPermutes(ps, RateAtLeast);
    var r := TopPerformers(students, att);
    forall p | p in r ensures p.student in students && p.attendanceRate == RateOf(p.student, att) {
      assert p in multiset(ps);
      var i :| 0 <= i < |ps| && ps[i] == p;
    }
  }

  /** Nobody left out of the top five has a higher rate than anybody in it. */
  lemma TopPerformersAreTheBest(students: seq<Student>, att: seq<AttendanceRecord>)
    ensures var r := TopPerformers(students, att);
      forall x, y :: x in r && y in multiset(Performers(students, att)) - multiset(r) ==>
        x.attendanceRate >= y.attendanceRate
  {
    var r := TopPerformers(students, att);
    RateAtLeastOrders();
    SortedPrefixIsLeast(Performers(students, att), Min(5, |students|), RateAtLeast);
    forall x, y | x in r && y in multiset(Performers(students, att)) - multiset(r)
      ensures x.attendanceRate >= y.attendanceRate
    {
      assert RateAtLeast(x, y);
    }
  }

  /** Students with equal rates appear in the order of the students list. */
  lemma TopPerformersKeepListOrderOnTies(students: seq<Student>, att: seq<AttendanceRecord>, v: Performer)
    ensures IsPrefixOf(Ties(TopPerformers(students, att), v, RateAtLeast),
                       Ties(Performers(students, att), v, RateAtLeast))
  {
    var ps := Performers(students, att);
    RateAtLeastOrders();
    SortByStable(ps, v, RateAtLeast);
    TiesOfPrefix(SortBy(ps, RateAtLeast), Min(5, |students|), v, RateAtLeast);
  }

  // ---------------------------------------------------------------------
  // Recent attendance (dashboard.js, loadRecentAttendance)
  // ---------------------------------------------------------------------

  /** The comparator on `date + ' ' + time`, newest first: `a` stays in front unless `b` is later. */
  predicate IsNotOlder(a: AttendanceRecord, b: AttendanceRecord)
  {
    a.date > b.date || (a.date == b.date && a.time >= b.time)
  }

  lemma IsNotOlderOrders()
    ensures Total(IsNotOlder) && Transitive(IsNotOlder)
  {
  }

  function RecentAttendance(att: seq<AttendanceRecord>): (r: seq<AttendanceRecord>)
    ensures |r| == Min(8, |att|)
  {
    SortBy(att, IsNotOlder)[..Min(8, |att|)]
  }

  /** At most eight records of the list, newest first, none newer left behind. */
  lemma RecentAttendanceShape(att: seq<AttendanceRecord>)
    ensures var r := RecentAttendance(att);
      |r| <= 8 &&
      multiset(r) <= multiset(att) &&
      (forall i, j :: 0 <= i < j < |r| ==> IsNotOlder(r[i], r[j])) &&
      (forall x, y :: x in r && y in multiset(att) - multiset(r) ==> IsNotOlder(x, y))
  {
    var sorted := SortBy(att, IsNotOlder);
    var k := Min(8, |att|);
    IsNotOlderOrders();
    SortBySorted(att, IsNotOlder);
    SortByPermutes(att, IsNotOlder);
    SortedPrefixIsLeast(att, k, IsNotOlder);
    assert sorted == sorted[..k] + sorted[k..];
  }

  /** Records stamped with the same date and time keep their stored order. */
  lemma RecentAttendanceKeepsStoredOrderOnTies(att: seq<AttendanceRecord>, v: AttendanceRecord)
    ensures IsPrefixOf(Ties(RecentAttendance(att), v, IsNotOlder), Ties(att, v, IsNotOlder))
  {
    IsNotOlderOrders();
    SortByStable(att, v, IsNotOlder);
    TiesOfPrefix(SortBy(att, IsNotOlder), Min(8, |att|), v, IsNotOlder);
  }
}
