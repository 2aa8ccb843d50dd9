/**
 * The client-side helpers of the reports page: the Good/Poor
 * classification of a row, the column sort of the report table, the name
 * search, the date ranges a report type fills in, and the date check
 * before a report is requested.
 */
module Reports {
  import opened Common
  import opened Text
  import opened Sorting
  import opened Calendar

  /** One row of the report table as the server sends it. */
  datatype ReportRow = ReportRow(
    studentId: string,
    name: string,
    department: Option<string>,
    presentDays: nat,
    totalDays: nat,
    percentage: real)

  // ---------------------------------------------------------------------
  // Classification (renderReportTable)
  // ---------------------------------------------------------------------

  const GoodThreshold: real := 75.0

  /** The status badge text. */
  function StatusBadge(percentage: real): (badge: string)
    ensures badge == "Good" <==> percentage >= GoodThreshold
    ensures badge == "Poor" <==> percentage < GoodThreshold
  {
    if percentage >= GoodThreshold then "Good" else "Poor"
  }

  /**
   * The CSS class of the percentage cell; it never disagrees with the
   * badge: a 'low' cell always carries a 'Poor' badge, and back.
   */
  function PercentClass(percentage: real): (cls: string)
    ensures cls == "low" <==> percentage < GoodThreshold
    ensures cls == "good" <==> percentage >= GoodThreshold
    ensures cls == "low" <==> StatusBadge(percentage) == "Poor"
    ensures cls == "good" <==> StatusBadge(percentage) == "Good"
  {
    if percentage < GoodThreshold then "low" else "good"
  }

  // ---------------------------------------------------------------------
  // Search (searchReport)
  // ---------------------------------------------------------------------

  /**
   * The search box: a row is shown iff the lowercased term occurs in its
   * lowercased name; an empty term shows every row.
   */
  predicate SearchVisible(row: ReportRow, searchTerm: string): (b: bool)
    ensures b <==> Occurs(Lower(row.name), Lower(searchTerm))
    ensures searchTerm == "" ==> b
  {
    NameMatches(row.name, searchTerm)
  }

  // ---------------------------------------------------------------------
  // Sorting (sortReport)
  // ---------------------------------------------------------------------

  /**
   * The percentage cell shows the percentage rounded to one decimal, and
   * the sort reads that text back: the key is the number of tenths,
   * halves rounded away from zero.
   */
  function Tenths(percentage: real): (n: int)
    ensures percentage * 10.0 - 0.5 <= n as real <= percentage * 10.0 + 0.5
    ensures percentage >= 0.0 ==> percentage * 10.0 - 0.5 < n as real
  {
    if percentage >= 0.0 then (percentage * 10.0 + 0.5).Floor
    else -((-percentage * 10.0 + 0.5).Floor)
  }

  /** 'name': `a` may stay in front of `b` when its name does not come later. */
  predicate ByName(a: ReportRow, b: ReportRow) { LexLe(a.name, b.name) }

  /** 'id': by the student id text. */
  predicate ById(a: ReportRow, b: ReportRow) { LexLe(a.studentId, b.studentId) }

  /** 'department': by the department cell text, 'N/A' for a missing or empty department. */
  predicate ByDepartment(a: ReportRow, b: ReportRow) { LexLe(OrDefault(a.department, "N/A"), OrDefault(b.department, "N/A")) }

  /** 'attendance': `bVal - aVal`, so the higher shown percentage goes first. */
  predicate ByAttendance(a: ReportRow, b: ReportRow) { Tenths(a.percentage) >= Tenths(b.percentage) }

  /** Any other key: the comparator returns 0 for every pair. */
  predicate KeepOrder(a: ReportRow, b: ReportRow) { true }

  /**
   * The comparator of a column key. Every one of them is a total preorder,
   * so the sort is well defined; an unknown key compares every pair as
   * equal.
   */
  function ComparatorFor(sortBy: string): (le: (ReportRow, ReportRow) -> bool)
    ensures Total(le) && Transitive(le)
    ensures sortBy !in {"name", "id", "attendance", "department"} ==> forall a, b :: le(a, b)
  {
    ByTextOrders();
    assert Total(ByAttendance) && Transitive(ByAttendance);
    match sortBy
    case "name" => ByName
    case "id" => ById
    case "attendance" => ByAttendance
    case "department" => ByDepartment
    case _ => KeepOrder
  }

  /**
   * Sorts the table rows in place with the comparator of the chosen
   * column; any other key leaves the rows in their order.
   */
  method SortReport(rows: array<ReportRow>, sortBy: string)
    modifies rows
    ensures rows[..] == SortBy(old(rows[..]), ComparatorFor(sortBy))
    ensures sortBy !in {"name", "id", "attendance", "department"} ==> rows[..] == old(rows[..])
  {
    ghost var before := rows[..];
    SortInPlace(rows, ComparatorFor(sortBy));
    if sortBy !in {"name", "id", "attendance", "department"} {
      SortByKeepsSorted(before, ComparatorFor(sortBy));
    }
  }

  lemma ByTextOrders()
    ensures Total(ByName) && Transitive(ByName)
    ensures Total(ById) && Transitive(ById)
    ensures Total(ByDepartment) && Transitive(ByDepartment)
  {
    forall a: ReportRow, b: ReportRow ensures ByName(a, b) || ByName(b, a) {
      LexLeTotal(a.name, b.name);
    }
    forall a: ReportRow, b: ReportRow, c: ReportRow | ByName(a, b) && ByName(b, c) ensures ByName(a, c) {
      LexLeTransitive(a.name, b.name, c.name);
    }
    forall a: ReportRow, b: ReportRow ensures ById(a, b) || ById(b, a) {
      LexLeTotal(a.studentId, b.studentId);
    }
    forall a: ReportRow, b: ReportRow, c: ReportRow | ById(a, b) && ById(b, c) ensures ById(a, c) {
      LexLeTransitive(a.studentId, b.studentId, c.studentId);
    }
    forall a: ReportRow, b: ReportRow ensures ByDepartment(a, b) || ByDepartment(b, a) {
      LexLeTotal(OrDefault(a.department, "N/A"), OrDefault(b.department, "N/A"));
    }
    forall a: ReportRow, b: ReportRow, c: ReportRow | ByDepartment(a, b) && ByDepartment(b, c)
      ensures ByDepartment(a, c)
    {
      LexLeTransitive(OrDefault(a.department, "N/A"), OrDefault(b.department, "N/A"), OrDefault(c.department, "N/A"));
    }
  }

  /** Whatever the key, the sorted table holds the same rows. */
  lemma SortReportPermutes(rows: seq<ReportRow>, sortBy: string)
    ensures multiset(SortBy(rows, ComparatorFor(sortBy))) == multiset(rows)
  {
    SortByPermutes(rows, ComparatorFor(sortBy));
  }

  /**
   * 'attendance' orders the shown percentages from high to low, so a row
   * is never more than a tenth of a percent below one after it.
   */
  lemma SortByAttendanceDescends(rows: seq<ReportRow>)
    ensures var r := SortBy(rows, ComparatorFor("attendance"));
      forall i, j :: 0 <= i < j < |r| ==>
        Tenths(r[i].percentage) >= Tenths(r[j].percentage) &&
        r[i].percentage >= r[j].percentage - 0.1
  {
    var r := SortBy(rows, ByAttendance);
    assert Total(ByAttendance) && Transitive(ByAttendance);
    SortBySorted(rows, ByAttendance);
    forall i, j | 0 <= i < j < |r| ensures r[i].percentage >= r[j].percentage - 0.1 {
      assert ByAttendance(r[i], r[j]);
    }
  }

  /** 'name', 'id' and 'department' order their column's text from low to high. */
  lemma SortByTextAscends(rows: seq<ReportRow>)
    ensures var r := SortBy(rows, ComparatorFor("name"));
      forall i, j :: 0 <= i < j < |r| ==> LexLe(r[i].name, r[j].name)
    ensures var r := SortBy(rows, ComparatorFor("id"));
      forall i, j :: 0 <= i < j < |r| ==> LexLe(r[i].studentId, r[j].studentId)
    ensures var r := SortBy(rows, ComparatorFor("department"));
      forall i, j :: 0 <= i < j < |r| ==> LexLe(OrDefault(r[i].department, "N/A"), OrDefault(r[j].department, "N/A"))
  {
    ByTextOrders();
    SortBySorted(rows, ByName);
    SortBySorted(rows, ById);
    SortBySorted(rows, ByDepartment);
  }

  /** Rows with the same key keep the order they had in the table. */
  lemma SortReportIsStable(rows: seq<ReportRow>, sortBy: string, v: ReportRow)
    ensures Ties(SortBy(rows, ComparatorFor(sortBy)), v, ComparatorFor(sortBy))
         == Ties(rows, v, ComparatorFor(sortBy))
  {
    SortByStable(rows, v, ComparatorFor(sortBy));
  }

  // ---------------------------------------------------------------------
  // Date ranges (handleReportTypeChange) and the request guard (generateReport)
  // ---------------------------------------------------------------------

  /** The two date boxes; an empty box is `None`. */
  datatype DateInputs = DateInputs(start: Option<int>, end: Option<int>)

  /**
   * The date boxes after choosing a report type on `today`: 'daily' fills
   * both with today, 'weekly' and 'monthly' fill both with their range,
   * and any other type ('custom') leaves them as they are.
   */
  function ReportTypeChange(reportType: string, today: CivilDate, inputs: DateInputs): (r: DateInputs)
    requires Valid(today)
    ensures reportType == "daily" ==> r == DateInputs(Some(DayNumber(today)), Some(DayNumber(today)))
    ensures reportType in {"weekly", "monthly"} ==> r.start.Some? && r.end.Some?
    ensures reportType !in {"daily", "weekly", "monthly"} ==> r == inputs
  {
    var t := DayNumber(today);
    match reportType
    case "daily" => DateInputs(Some(t), Some(t))
    case "weekly" =>
      var weekStart := t - Weekday(t);
      DateInputs(Some(weekStart), Some(weekStart + 6))
    case "monthly" =>
      var monthStart := DayNumber(CivilDate(today.year, today.month, 1));
      var monthEnd := DayNumber(CivilDate(today.year, today.month, DaysInMonth(today.year, today.month)));
      DateInputs(Some(monthStart), Some(monthEnd))
    case _ => inputs
  }

  /** 'weekly' runs from the Sunday of this week to the Saturday after it. */
  lemma WeeklyRange(today: CivilDate, inputs: DateInputs)
    requires Valid(today)
    ensures var r := ReportTypeChange("weekly", today, inputs);
      r.start.Some? && r.end.Some? &&
      Weekday(r.start.value) == 0 &&
      r.start.value <= DayNumber(today) <= r.end.value &&
      r.end.value == r.start.value + 6
  {
    var t := DayNumber(today);
    var s := t - Weekday(t);
    assert (t + 4) % 7 == Weekday(t);
    assert (s + 4) == (t + 4) - (t + 4) % 7;
    assert (s + 4) == 7 * ((t + 4) / 7);
  }

  /**
   * 'monthly' runs from the first to the last day of this month: it holds
   * today, has as many days as the month, and the day after it is the
   * first of the next month.
   */
  lemma MonthlyRange(today: CivilDate, inputs: DateInputs)
    requires Valid(today)
    ensures var r := ReportTypeChange("monthly", today, inputs);
      r.start.Some? && r.end.Some? &&
      r.start.value == DayNumber(CivilDate(today.year, today.month, 1)) &&
      r.start.value <= DayNumber(today) <= r.end.value &&
      r.end.value - r.start.value + 1 == DaysInMonth(today.year, today.month) &&
      r.end.value + 1 == DayNumber(FirstOfNextMonth(today))
  {
    MonthEndIsFollowedByNextMonth(today);
  }

  /** What the page asks the server for. */
  datatype ReportQuery = ReportQuery(reportType: string, startDate: int, endDate: int, department: Option<string>)

  datatype RequestError = MissingDates

  /** Refused when either date box is empty; the department goes along only when one is chosen. */
  function GenerateRequest(reportType: string, department: string, inputs: DateInputs): (r: Result<ReportQuery, RequestError>)
    ensures r.Failure? <==> inputs.start.None? || inputs.end.None?
    ensures r.Success? ==>
      r.value.startDate == inputs.start.value && r.value.endDate == inputs.end.value &&
      r.value.reportType == reportType &&
      (r.value.department.Some? <==> department != "") &&
      (r.value.department.Some? ==> r.value.department.value == department)
  {
    if inputs.start.None? || inputs.end.None? then Failure(MissingDates)
    else
      Success(ReportQuery(reportType, inputs.start.value, inputs.end.value,
                          if department != "" then Some(department) else None))
  }
}
