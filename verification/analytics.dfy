/**
 * The two read-only reports of the service: the per-student attendance report
 * with its optional date window, and the attendance analytics for one day.
 * Both select rows of `attendance` and count how many say "Present".
 */
module Analytics {
  import opened Wrappers
  import opened Collation
  import opened Database
  import opened Routes

  /** The answer of `GET /attendance/report/{roll_no}`. */
  datatype Report = Report(studentId: string, totalDays: nat, presentDays: nat)
  {
    /** The `attendance_percentage` field of the answer. */
    function Percentage(): real
    {
      PercentageOf(presentDays, totalDays)
    }
  }

  /** The answer of `GET /attendance/daily`. */
  datatype Daily = Daily(date: string, totalStudents: nat, present: nat, absent: int)
  {
    /** The `attendance_percentage` field of the answer. */
    function Percentage(): real
    {
      PercentageOf(present, totalStudents)
    }
  }

  /** Only the exact, case-sensitive status "Present" counts as present. */
  predicate IsPresent(x: Record)
  {
    x.status == "Present"
  }

  /** How many of the rows are marked present. */
  function CountPresent(rows: seq<Record>): (n: nat)
    ensures n <= |rows|
    decreases |rows|
  {
    if |rows| == 0 then 0
    else if IsPresent(rows[|rows| - 1]) then CountPresent(rows[..|rows| - 1]) + 1
    else CountPresent(rows[..|rows| - 1])
  }

  /** How many of the rows carry any status other than "Present". */
  function CountAbsent(rows: seq<Record>): (n: nat)
    ensures n <= |rows|
    decreases |rows|
  {
    if |rows| == 0 then 0
    else if IsPresent(rows[|rows| - 1]) then CountAbsent(rows[..|rows| - 1])
    else CountAbsent(rows[..|rows| - 1]) + 1
  }

  /** Every row is either present or absent: there is no third bucket. */
  lemma {:induction false} PresentPlusAbsent(rows: seq<Record>)
    ensures CountPresent(rows) + CountAbsent(rows) == |rows|
    decreases |rows|
  {
    if |rows| > 0 {
      PresentPlusAbsent(rows[..|rows| - 1]);
    }
  }

  /** `p` is `present` out of `total` as a percentage, and 0 when `total` is 0. */
  predicate IsPercentage(p: real, present: nat, total: nat)
  {
    && (total == 0 ==> p == 0.0)
    && (total > 0 ==> p * (total as real) == (present as real) * 100.0)
  }

  /**
   * The attendance percentage `present / total * 100`, or 0 when there is
   * nothing to divide by; kept exact, without the two-decimal formatting.
   */
  function PercentageOf(present: nat, total: nat): (p: real)
    ensures IsPercentage(p, present, total)
    ensures present <= total ==> 0.0 <= p <= 100.0
  {
    if total > 0 then (present as real) / (total as real) * 100.0 else 0.0
  }

  /** Whether the report for `rollNo` counts an attendance row of `studentId` on `date`. */
  predicate InReport(rollNo: string, startDate: Option<string>, endDate: Option<string>, studentId: string, date: string)
  {
    && studentId == rollNo
    && (Supplied(startDate) && Supplied(endDate) ==> LexLe(startDate.value, date) && LexLe(date, endDate.value))
  }

  /** The WHERE clause of the report: the roll number, plus BETWEEN only when both bounds are truthy. */
  function ReportConds(rollNo: string, startDate: Option<string>, endDate: Option<string>): (r: seq<RecordCond>)
    ensures forall x :: RecordMeetsAll(x, r) <==> InReport(rollNo, startDate, endDate, x.studentId, x.date)
  {
    var r := [StudentIdIs(rollNo)]
      + (if Supplied(startDate) && Supplied(endDate) then [DateBetween(startDate.value, endDate.value)] else []);
    assert forall x :: RecordMeetsAll(x, r) <==> InReport(rollNo, startDate, endDate, x.studentId, x.date) by {
      forall x
        ensures RecordMeetsAll(x, r) <==> InReport(rollNo, startDate, endDate, x.studentId, x.date)
      {
        assert RecordMeets(x, r[0]) <==> x.studentId == rollNo;
        if Supplied(startDate) && Supplied(endDate) {
          assert RecordMeets(x, r[1]) <==> LexLe(startDate.value, x.date) && LexLe(x.date, endDate.value);
        }
      }
    }
    r
  }

  /** `GET /attendance/report/{roll_no}`. */
  function AttendanceReport(st: Store, rollNo: string, startDate: Option<string>, endDate: Option<string>): (r: Report)
    ensures r.studentId == rollNo
    ensures r.presentDays <= r.totalDays <= |st.attendance|
  {
    var rows := SelectRecords(st.attendance, ReportConds(rollNo, startDate, endDate));
    var total := |rows|;
    var present := CountPresent(rows);
    Report(rollNo, total, present)
  }

  /** `GET /attendance/daily`. */
  function DailyAttendance(st: Store, date: string): (r: Daily)
    ensures r.date == date
    ensures r.present + r.absent == r.totalStudents
    ensures 0 <= r.absent && r.totalStudents <= |st.attendance|
  {
    var rows := SelectRecords(st.attendance, [DateIs(date)]);
    var total := |rows|;
    var present := CountPresent(rows);
    Daily(date, total, present, total - present)
  }

  /** The report's percentage is present over total, 0 without records, and never above 100. */
  lemma ReportPercentage(st: Store, rollNo: string, startDate: Option<string>, endDate: Option<string>)
    ensures var r := AttendanceReport(st, rollNo, startDate, endDate);
      IsPercentage(r.Percentage(), r.presentDays, r.totalDays) && 0.0 <= r.Percentage() <= 100.0
  {
  }

  /** The same for the daily analytics. */
  lemma DailyPercentage(st: Store, date: string)
    ensures var r := DailyAttendance(st, date);
      IsPercentage(r.Percentage(), r.present, r.totalStudents) && 0.0 <= r.Percentage() <= 100.0
  {
  }

  // ---------------------------------------------------------------------------
  // Counts against an independent definition: sets of row positions
  // ---------------------------------------------------------------------------

  /** Which of the selected rows a count looks at. */
  datatype Bucket = AllRows | PresentRows | AbsentRows

  predicate InBucket(x: Record, b: Bucket)
  {
    match b
    case AllRows => true
    case PresentRows => IsPresent(x)
    case AbsentRows => !IsPresent(x)
  }

  predicate Kept(x: Record, conds: seq<RecordCond>, b: Bucket)
  {
    RecordMeetsAll(x, conds) && InBucket(x, b)
  }

  /** The table positions whose rows meet the WHERE clause and fall in bucket `b`. */
  ghost function Positions(rows: seq<Record>, conds: seq<RecordCond>, b: Bucket): set<int>
  {
    set i | 0 <= i < |rows| && Kept(rows[i], conds, b)
  }

  lemma CountPresentAppend(rows: seq<Record>, x: Record)
    ensures CountPresent(rows + [x]) == CountPresent(rows) + (if IsPresent(x) then 1 else 0)
    ensures CountAbsent(rows + [x]) == CountAbsent(rows) + (if IsPresent(x) then 0 else 1)
  {
  }

  /** One more row adds its own position, and only when it is kept. */
  lemma PositionsAppend(rows: seq<Record>, x: Record, conds: seq<RecordCond>, b: Bucket)
    ensures |Positions(rows + [x], conds, b)| == |Positions(rows, conds, b)| + (if Kept(x, conds, b) then 1 else 0)
  {
    var n := |rows|;
    var all := rows + [x];
    var before := Positions(rows, conds, b);
    var after := Positions(all, conds, b);
    var added := if Kept(x, conds, b) then {n} else {};
    assert after == before + added by {
      forall i
        ensures i in after <==> i in before + added
      {
        if 0 <= i < n {
          assert all[i] == rows[i];
        } else if i == n {
          assert all[i] == x;
        }
      }
    }
    assert n !in before;
  }

  /**
   * The selected rows, and the present and absent ones among them, are exactly
   * as many as the table positions whose rows meet the WHERE clause.
   */
  lemma {:induction false} SelectCounts(rows: seq<Record>, conds: seq<RecordCond>)
    ensures |SelectRecords(rows, conds)| == |Positions(rows, conds, AllRows)|
    ensures CountPresent(SelectRecords(rows, conds)) == |Positions(rows, conds, PresentRows)|
    ensures CountAbsent(SelectRecords(rows, conds)) == |Positions(rows, conds, AbsentRows)|
    decreases |rows|
  {
    if |rows| == 0 {
      assert Positions(rows, conds, AllRows) == {};
      assert Positions(rows, conds, PresentRows) == {};
      assert Positions(rows, conds, AbsentRows) == {};
    } else {
      var n := |rows| - 1;
      var init := rows[..n];
      var x := rows[n];
      assert rows == init + [x];
      SelectCounts(init, conds);
      SelectRecordsAppend(init, x, conds);
      CountPresentAppend(SelectRecords(init, conds), x);
      PositionsAppend(init, x, conds, AllRows);
      PositionsAppend(init, x, conds, PresentRows);
      PositionsAppend(init, x, conds, AbsentRows);
    }
  }

  /** The table positions of the rows the report counts, within bucket `b`. */
  ghost function ReportPositions(att: seq<Record>, rollNo: string, startDate: Option<string>, endDate: Option<string>, b: Bucket): set<int>
  {
    set i | 0 <= i < |att| && InReport(rollNo, startDate, endDate, att[i].studentId, att[i].date) && InBucket(att[i], b)
  }

  /** The table positions of the rows dated `date`, within bucket `b`. */
  ghost function DayPositions(att: seq<Record>, date: string, b: Bucket): set<int>
  {
    set i | 0 <= i < |att| && att[i].date == date && InBucket(att[i], b)
  }

  lemma ReportPositionsAgree(att: seq<Record>, rollNo: string, startDate: Option<string>, endDate: Option<string>, b: Bucket)
    ensures Positions(att, ReportConds(rollNo, startDate, endDate), b) == ReportPositions(att, rollNo, startDate, endDate, b)
  {
  }

  lemma DailyCondsMeaning(date: string, x: Record)
    ensures RecordMeetsAll(x, [DateIs(date)]) <==> x.date == date
  {
    assert RecordMeetsAll(x, [DateIs(date)]) <==> RecordMeets(x, [DateIs(date)][0]);
  }

  lemma DayPositionsAgree(att: seq<Record>, date: string, b: Bucket)
    ensures Positions(att, [DateIs(date)], b) == DayPositions(att, date, b)
  {
    forall i | 0 <= i < |att| {
      DailyCondsMeaning(date, att[i]);
    }
  }

  /**
   * The report counts the student's rows inside the window (every row of the
   * student when the window is not applied), and the present ones among them.
   */
  lemma ReportCounts(st: Store, rollNo: string, startDate: Option<string>, endDate: Option<string>)
    ensures AttendanceReport(st, rollNo, startDate, endDate).totalDays == |ReportPositions(st.attendance, rollNo, startDate, endDate, AllRows)|
    ensures AttendanceReport(st, rollNo, startDate, endDate).presentDays == |ReportPositions(st.attendance, rollNo, startDate, endDate, PresentRows)|
  {
    SelectCounts(st.attendance, ReportConds(rollNo, startDate, endDate));
    ReportPositionsAgree(st.attendance, rollNo, startDate, endDate, AllRows);
    ReportPositionsAgree(st.attendance, rollNo, startDate, endDate, PresentRows);
  }

  /**
   * The daily analytics count the rows of exactly that date, the present
   * ones, and as absent every other status, whatever its text.
   */
  lemma DailyCounts(st: Store, date: string)
    ensures DailyAttendance(st, date).totalStudents == |DayPositions(st.attendance, date, AllRows)|
    ensures DailyAttendance(st, date).present == |DayPositions(st.attendance, date, PresentRows)|
    ensures DailyAttendance(st, date).absent == |DayPositions(st.attendance, date, AbsentRows)|
  {
    var conds := [DateIs(date)];
    PresentPlusAbsent(SelectRecords(st.attendance, conds));
    SelectCounts(st.attendance, conds);
    DayPositionsAgree(st.attendance, date, AllRows);
    DayPositionsAgree(st.attendance, date, PresentRows);
    DayPositionsAgree(st.attendance, date, AbsentRows);
  }

  // ---------------------------------------------------------------------------
  // The date window
  // ---------------------------------------------------------------------------

  /** With at most one bound supplied the window is ignored: every row of the student counts. */
  lemma OneBoundIgnored(st: Store, rollNo: string, startDate: Option<string>, endDate: Option<string>)
    requires !(Supplied(startDate) && Supplied(endDate))
    ensures AttendanceReport(st, rollNo, startDate, endDate) == AttendanceReport(st, rollNo, None, None)
  {
  }

  /** Adding WHERE terms never selects more rows, nor more present ones. */
  lemma {:induction false} MoreCondsFewerRows(rows: seq<Record>, conds: seq<RecordCond>, extra: seq<RecordCond>)
    ensures |SelectRecords(rows, conds + extra)| <= |SelectRecords(rows, conds)|
    ensures CountPresent(SelectRecords(rows, conds + extra)) <= CountPresent(SelectRecords(rows, conds))
    decreases |rows|
  {
    if |rows| > 0 {
      var n := |rows| - 1;
      var x := rows[n];
      assert rows == rows[..n] + [x];
      MoreCondsFewerRows(rows[..n], conds, extra);
      SelectRecordsAppend(rows[..n], x, conds);
      SelectRecordsAppend(rows[..n], x, conds + extra);
      CountPresentAppend(SelectRecords(rows[..n], conds), x);
      CountPresentAppend(SelectRecords(rows[..n], conds + extra), x);
      if RecordMeetsAll(x, conds + extra) {
        forall k | 0 <= k < |conds|
          ensures RecordMeets(x, conds[k])
        {
          assert (conds + extra)[k] == conds[k];
        }
      }
    }
  }

  /** Applying the window can only lower the total and the present count. */
  lemma WindowNarrows(st: Store, rollNo: string, startDate: Option<string>, endDate: Option<string>)
    ensures AttendanceReport(st, rollNo, startDate, endDate).totalDays <= AttendanceReport(st, rollNo, None, None).totalDays
    ensures AttendanceReport(st, rollNo, startDate, endDate).presentDays <= AttendanceReport(st, rollNo, None, None).presentDays
  {
    var extra := if Supplied(startDate) && Supplied(endDate) then [DateBetween(startDate.value, endDate.value)] else [];
    assert ReportConds(rollNo, startDate, endDate) == ReportConds(rollNo, None, None) + extra;
    MoreCondsFewerRows(st.attendance, ReportConds(rollNo, None, None), extra);
  }

  /** A window whose start sorts after its end selects nothing. */
  lemma InvertedWindowIsEmpty(st: Store, rollNo: string, startDate: Option<string>, endDate: Option<string>)
    requires Supplied(startDate) && Supplied(endDate)
    requires !LexLe(startDate.value, endDate.value)
    ensures AttendanceReport(st, rollNo, startDate, endDate).totalDays == 0
    ensures AttendanceReport(st, rollNo, startDate, endDate).Percentage() == 0.0
  {
    var conds := ReportConds(rollNo, startDate, endDate);
    forall i | 0 <= i < |st.attendance|
      ensures !RecordMeetsAll(st.attendance[i], conds)
    {
      var d := st.attendance[i].date;
      if LexLe(startDate.value, d) && LexLe(d, endDate.value) {
        LexLeTransitive(startDate.value, d, endDate.value);
      }
      assert !RecordMeets(st.attendance[i], conds[1]);
    }
    SelectRecordsNone(st.attendance, conds);
  }

  /** Both bounds are inclusive: a row dated on either bound is counted. */
  lemma WindowInclusive(rollNo: string, lo: string, hi: string)
    requires lo != "" && hi != "" && LexLe(lo, hi)
    ensures InReport(rollNo, Some(lo), Some(hi), rollNo, lo)
    ensures InReport(rollNo, Some(lo), Some(hi), rollNo, hi)
  {
    LexLeReflexive(lo);
    LexLeReflexive(hi);
  }

  // ---------------------------------------------------------------------------
  // Effects of the write routes on the reports
  // ---------------------------------------------------------------------------

  /** One more attendance row changes a report exactly when the report counts that row. */
  lemma ReportAfterAppend(st: Store, x: Record, rollNo: string, startDate: Option<string>, endDate: Option<string>)
    ensures
      var before := AttendanceReport(st, rollNo, startDate, endDate);
      var after := AttendanceReport(st.(attendance := st.attendance + [x]), rollNo, startDate, endDate);
      var counted := InReport(rollNo, startDate, endDate, x.studentId, x.date);
      && after.totalDays == before.totalDays + (if counted then 1 else 0)
      && after.presentDays == before.presentDays + (if counted && x.status == "Present" then 1 else 0)
  {
    var conds := ReportConds(rollNo, startDate, endDate);
    SelectRecordsAppend(st.attendance, x, conds);
    CountPresentAppend(SelectRecords(st.attendance, conds), x);
  }

  /** One more attendance row changes only the analytics of its own date. */
  lemma DailyAfterAppend(st: Store, x: Record, date: string)
    ensures
      var before := DailyAttendance(st, date);
      var after := DailyAttendance(st.(attendance := st.attendance + [x]), date);
      && after.totalStudents == before.totalStudents + (if x.date == date then 1 else 0)
      && after.present == before.present + (if x.date == date && x.status == "Present" then 1 else 0)
      && after.absent == before.absent + (if x.date == date && x.status != "Present" then 1 else 0)
  {
    var conds := [DateIs(date)];
    DailyCondsMeaning(date, x);
    SelectRecordsAppend(st.attendance, x, conds);
    if x.date == date {
      CountPresentAppend(SelectRecords(st.attendance, conds), x);
    }
  }

  /** A successful mark adds its row to exactly the reports that count it. */
  lemma MarkThenReport(st: Store, form: AttendanceForm, rollNo: string, startDate: Option<string>, endDate: Option<string>)
    requires MarkAttendance(st, form).response.Ok?
    ensures
      var before := AttendanceReport(st, rollNo, startDate, endDate);
      var after := AttendanceReport(MarkAttendance(st, form).store, rollNo, startDate, endDate);
      var counted := InReport(rollNo, startDate, endDate, form.studentId, form.date);
      && after.totalDays == before.totalDays + (if counted then 1 else 0)
      && after.presentDays == before.presentDays + (if counted && form.status == "Present" then 1 else 0)
  {
    var x := Record(|st.attendance| + 1, form.studentId, form.date, form.status);
    assert MarkAttendance(st, form).store == st.(attendance := st.attendance + [x]);
    ReportAfterAppend(st, x, rollNo, startDate, endDate);
  }

  /** A successful mark adds its row to the analytics of its own date and of no other. */
  lemma MarkThenDaily(st: Store, form: AttendanceForm, date: string)
    requires MarkAttendance(st, form).response.Ok?
    ensures
      var before := DailyAttendance(st, date);
      var after := DailyAttendance(MarkAttendance(st, form).store, date);
      && after.totalStudents == before.totalStudents + (if form.date == date then 1 else 0)
      && after.present == before.present + (if form.date == date && form.status == "Present" then 1 else 0)
      && after.absent == before.absent + (if form.date == date && form.status != "Present" then 1 else 0)
  {
    var x := Record(|st.attendance| + 1, form.studentId, form.date, form.status);
    assert MarkAttendance(st, form).store == st.(attendance := st.attendance + [x]);
    DailyAfterAppend(st, x, date);
  }

  /** Adding a student leaves every report as it was. */
  lemma AddStudentKeepsReports(st: Store, form: StudentForm, rollNo: string, startDate: Option<string>, endDate: Option<string>, date: string)
    ensures AttendanceReport(AddStudent(st, form).store, rollNo, startDate, endDate) == AttendanceReport(st, rollNo, startDate, endDate)
    ensures DailyAttendance(AddStudent(st, form).store, date) == DailyAttendance(st, date)
  {
  }
}
