/**
 * A worked session against an empty database: student R1 is added, a second
 * student with the same roll number is refused, R1 is marked present on one
 * day and absent on the next, then both reports are read.
 */
module Scenarios {
  import opened Wrappers
  import opened Database
  import opened Routes
  import opened Analytics

  const Empty := Store([], [], [])
  const First := StudentForm("A", "R1", "CS", "a@x.com")
  const Day1 := AttendanceForm("R1", "2024-01-01", "Present")
  const Day2 := AttendanceForm("R1", "2024-01-02", "Absent")

  const Added := Store([Student(1, "A", "R1", "CS", "a@x.com")], [], [])
  const AfterDay1 := Added.(attendance := [Record(1, "R1", "2024-01-01", "Present")])
  const AfterDay2 := AfterDay1.(attendance := AfterDay1.attendance + [Record(2, "R1", "2024-01-02", "Absent")])

  /** The first student is accepted; the second with the same roll number is refused. */
  lemma DuplicateRollNoRefused()
    ensures AddStudent(Empty, First) == Outcome(Ok(First), Added)
    ensures
      var again := AddStudent(Added, StudentForm("B", "R1", "EE", "b@x.com"));
      && again.response == Err(Internal(UniqueFailed("students.roll_no")))
      && again.store == Added
  {
    assert Added.students[0].rollNo == "R1";
  }

  /** Both marks are accepted, each appending its row. */
  lemma BothMarksAccepted()
    ensures MarkAttendance(Added, Day1) == Outcome(Ok(Day1), AfterDay1)
    ensures MarkAttendance(AfterDay1, Day2) == Outcome(Ok(Day2), AfterDay2)
  {
    assert Added.students[0].rollNo == "R1";
    assert AfterDay1.students[0].rollNo == "R1";
  }

  /** After the first mark the report counts one day, present. */
  lemma ReportAfterFirstMark()
    ensures
      var report := AttendanceReport(AfterDay1, "R1", None, None);
      report.totalDays == 1 && report.presentDays == 1
  {
    var x := Record(1, "R1", "2024-01-01", "Present");
    assert Added.attendance + [x] == [x];
    assert AfterDay1 == Added.(attendance := Added.attendance + [x]);
    assert AttendanceReport(Added, "R1", None, None).totalDays == 0;
    ReportAfterAppend(Added, x, "R1", None, None);
  }

  /** The report without a window counts two days, one present: 50%. */
  lemma ReportAfterTwoMarks()
    ensures
      var report := AttendanceReport(AfterDay2, "R1", None, None);
      report.totalDays == 2 && report.presentDays == 1 && report.Percentage() == 50.0
  {
    var r2 := AttendanceReport(AfterDay2, "R1", None, None);
    assert r2.totalDays == 2 && r2.presentDays == 1 by {
      ReportAfterFirstMark();
      var y := Record(2, "R1", "2024-01-02", "Absent");
      assert AfterDay2 == AfterDay1.(attendance := AfterDay1.attendance + [y]);
      ReportAfterAppend(AfterDay1, y, "R1", None, None);
    }
    assert r2.Percentage() == PercentageOf(1, 2);
  }

  /** After the first mark the first day's analytics see one present student. */
  lemma DailyAfterFirstMark()
    ensures
      var daily := DailyAttendance(AfterDay1, "2024-01-01");
      daily.totalStudents == 1 && daily.present == 1 && daily.absent == 0
  {
    var x := Record(1, "R1", "2024-01-01", "Present");
    assert Added.attendance + [x] == [x];
    assert AfterDay1 == Added.(attendance := Added.attendance + [x]);
    assert DailyAttendance(Added, "2024-01-01").totalStudents == 0;
    DailyAfterAppend(Added, x, "2024-01-01");
  }

  /** The second mark is for another day: the first day still has one present student and no absent one, 100%. */
  lemma DailyAfterTwoMarks()
    ensures
      var daily := DailyAttendance(AfterDay2, "2024-01-01");
      daily.totalStudents == 1 && daily.present == 1 && daily.absent == 0 && daily.Percentage() == 100.0
  {
    var d2 := DailyAttendance(AfterDay2, "2024-01-01");
    assert d2.totalStudents == 1 && d2.present == 1 && d2.absent == 0 by {
      DailyAfterFirstMark();
      var y := Record(2, "R1", "2024-01-02", "Absent");
      assert AfterDay2 == AfterDay1.(attendance := AfterDay1.attendance + [y]);
      assert y.date[9] != "2024-01-01"[9];
      DailyAfterAppend(AfterDay1, y, "2024-01-01");
    }
    assert d2.Percentage() == PercentageOf(1, 1);
  }
}
