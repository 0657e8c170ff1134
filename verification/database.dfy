/**
 * The relational store behind the service: the three tables created at
 * start-up, the constraints their schema declares, and the two primitives the
 * routes use on them, an INSERT (`execute_query`) and a SELECT with a
 * conjunctive WHERE clause (`fetch_all`). Connections, commits and row
 * objects are not modelled; each statement is a pure function of the store.
 */
module Database {
  import opened Wrappers
  import opened Collation

  /** A row of `students`; `id` is the storage-assigned AUTOINCREMENT key. */
  datatype Student = Student(id: nat, name: string, rollNo: string, department: string, email: string)

  /** A row of `attendance`. `studentId` holds a roll number; no foreign key is enforced. */
  datatype Record = Record(id: nat, studentId: string, date: string, status: string)

  /** A row of the optional `users` table. */
  datatype User = User(id: nat, name: string, email: string)

  /** The database once every table exists. */
  datatype Store = Store(students: seq<Student>, attendance: seq<Record>, users: seq<User>)

  /** The database file as found at start-up: a table may not exist yet. */
  datatype Catalog = Catalog(students: Option<seq<Student>>, attendance: Option<seq<Record>>, users: Option<seq<User>>)

  /** A bound statement parameter: SQL NULL or a text value. */
  datatype Value = Null | Text(text: string)

  /** The integrity errors SQLite raises, naming the failed column as it does. */
  datatype StorageError = NotNullFailed(column: string) | UniqueFailed(column: string)

  // ---------------------------------------------------------------------------
  // Schema and the store invariant
  // ---------------------------------------------------------------------------

  predicate Ready(c: Catalog)
  {
    c.students.Some? && c.attendance.Some? && c.users.Some?
  }

  /**
   * `CREATE TABLE IF NOT EXISTS` for the three tables: a missing table is
   * created empty, an existing one is left with all its rows.
   */
  function InitializeDb(c: Catalog): (r: Catalog)
    ensures Ready(r)
    ensures c.students.Some? ==> r.students == c.students
    ensures c.attendance.Some? ==> r.attendance == c.attendance
    ensures c.users.Some? ==> r.users == c.users
    ensures c.students.None? ==> r.students == Some([])
    ensures c.attendance.None? ==> r.attendance == Some([])
    ensures c.users.None? ==> r.users == Some([])
  {
    Catalog(
      if c.students.Some? then c.students else Some([]),
      if c.attendance.Some? then c.attendance else Some([]),
      if c.users.Some? then c.users else Some([]))
  }

  /** The tables of a catalog in which every table exists. */
  function Tables(c: Catalog): Store
    requires Ready(c)
  {
    Store(c.students.value, c.attendance.value, c.users.value)
  }

  /** Running the start-up a second time changes nothing. */
  lemma InitializeDbIdempotent(c: Catalog)
    ensures InitializeDb(InitializeDb(c)) == InitializeDb(c)
    ensures Ready(c) ==> InitializeDb(c) == c
  {
  }

  predicate RollNoTaken(students: seq<Student>, rollNo: string)
  {
    exists i :: 0 <= i < |students| && students[i].rollNo == rollNo
  }

  predicate EmailTaken(students: seq<Student>, email: string)
  {
    exists i :: 0 <= i < |students| && students[i].email == email
  }

  predicate UniqueRollNos(students: seq<Student>)
  {
    forall i, j :: 0 <= i < j < |students| ==> students[i].rollNo != students[j].rollNo
  }

  predicate UniqueStudentEmails(students: seq<Student>)
  {
    forall i, j :: 0 <= i < j < |students| ==> students[i].email != students[j].email
  }

  predicate UniqueUserEmails(users: seq<User>)
  {
    forall i, j :: 0 <= i < j < |users| ==> users[i].email != users[j].email
  }

  /**
   * Rows are only ever appended and a failed INSERT is rolled back, so
   * AUTOINCREMENT numbers the rows of each table 1, 2, 3, ... in order.
   */
  predicate SequentialIds(students: seq<Student>, attendance: seq<Record>, users: seq<User>)
  {
    && (forall i :: 0 <= i < |students| ==> students[i].id == i + 1)
    && (forall i :: 0 <= i < |attendance| ==> attendance[i].id == i + 1)
    && (forall i :: 0 <= i < |users| ==> users[i].id == i + 1)
  }

  /**
   * What the schema guarantees of every reachable store: `roll_no` and both
   * `email` columns are UNIQUE, and the AUTOINCREMENT primary keys are
   * distinct.
   */
  predicate Valid(st: Store)
    ensures Valid(st) ==> forall i, j :: 0 <= i < |st.students| && 0 <= j < |st.students| && i != j ==>
      && st.students[i].id != st.students[j].id
      && st.students[i].rollNo != st.students[j].rollNo
      && st.students[i].email != st.students[j].email
    ensures Valid(st) ==> forall i, j :: 0 <= i < |st.attendance| && 0 <= j < |st.attendance| && i != j ==>
      st.attendance[i].id != st.attendance[j].id
    ensures Valid(st) ==> forall i, j :: 0 <= i < |st.users| && 0 <= j < |st.users| && i != j ==>
      st.users[i].id != st.users[j].id && st.users[i].email != st.users[j].email
  {
    && UniqueRollNos(st.students)
    && UniqueStudentEmails(st.students)
    && UniqueUserEmails(st.users)
    && SequentialIds(st.students, st.attendance, st.users)
  }

  /** A freshly created database satisfies the invariant. */
  lemma InitializeDbValid(c: Catalog)
    ensures c == Catalog(None, None, None) ==> Valid(Tables(InitializeDb(c)))
    ensures Ready(c) && Valid(Tables(c)) ==> Valid(Tables(InitializeDb(c)))
  {
  }

  // ---------------------------------------------------------------------------
  // INSERT
  // ---------------------------------------------------------------------------

  /** The first NOT NULL column, in declaration order, that is bound to NULL. */
  function FirstNull(columns: seq<string>, values: seq<Value>): (r: Option<string>)
    requires |columns| == |values|
    ensures r.None? <==> forall k :: 0 <= k < |values| ==> values[k].Text?
    ensures r.Some? ==> exists k ::
      && 0 <= k < |values| && values[k].Null? && columns[k] == r.value
      && (forall j :: 0 <= j < k ==> values[j].Text?)
    decreases |values|
  {
    if |values| == 0 then None
    else if values[0].Null? then Some(columns[0])
    else
      var rest := FirstNull(columns[1..], values[1..]);
      assert forall k :: 1 <= k < |values| ==> values[k] == values[1..][k - 1];
      if rest.None? then rest
      else
        var k :| && 0 <= k < |values| - 1 && values[1..][k].Null? && columns[1..][k] == rest.value
                 && (forall j :: 0 <= j < k ==> values[1..][j].Text?);
        assert values[k + 1].Null? && columns[k + 1] == rest.value;
        rest
  }

  /**
   * `INSERT INTO students (name, roll_no, department, email) VALUES (?, ?, ?, ?)`.
   * NOT NULL is checked column by column, then the UNIQUE index on `roll_no`,
   * then the one on `email`; a failed statement leaves no row behind.
   */
  function InsertStudent(st: Store, name: Value, rollNo: Value, department: Value, email: Value): (r: Result<Store, StorageError>)
    ensures r.Ok? <==>
      && name.Text? && rollNo.Text? && department.Text? && email.Text?
      && !RollNoTaken(st.students, rollNo.text)
      && !EmailTaken(st.students, email.text)
    ensures r.Err? && name.Text? && rollNo.Text? && department.Text? && email.Text? ==>
      r.error == UniqueFailed(if RollNoTaken(st.students, rollNo.text) then "students.roll_no" else "students.email")
    ensures r.Err? && name.Null? ==> r.error == NotNullFailed("students.name")
    ensures r.Ok? ==>
      && r.value.students == st.students + [Student(|st.students| + 1, name.text, rollNo.text, department.text, email.text)]
      && r.value.attendance == st.attendance
      && r.value.users == st.users
    ensures r.Ok? && Valid(st) ==> Valid(r.value)
  {
    var values := [name, rollNo, department, email];
    var missing := FirstNull(["students.name", "students.roll_no", "students.department", "students.email"], values);
    if missing.Some? then Err(NotNullFailed(missing.value))
    else
      assert values[0].Text? && values[1].Text? && values[2].Text? && values[3].Text?;
      if RollNoTaken(st.students, rollNo.text) then Err(UniqueFailed("students.roll_no"))
    else if EmailTaken(st.students, email.text) then Err(UniqueFailed("students.email"))
    else
      var row := Student(|st.students| + 1, name.text, rollNo.text, department.text, email.text);
      Ok(st.(students := st.students + [row]))
  }

  /**
   * `INSERT INTO attendance (student_id, date, status) VALUES (?, ?, ?)`.
   * Only NOT NULL can reject it: the declared foreign key is not enforced.
   */
  function InsertRecord(st: Store, studentId: Value, date: Value, status: Value): (r: Result<Store, StorageError>)
    ensures r.Ok? <==> studentId.Text? && date.Text? && status.Text?
    ensures r.Err? ==> r.error.NotNullFailed?
    ensures r.Ok? ==>
      && r.value.attendance == st.attendance + [Record(|st.attendance| + 1, studentId.text, date.text, status.text)]
      && r.value.students == st.students
      && r.value.users == st.users
    ensures r.Ok? && Valid(st) ==> Valid(r.value)
  {
    var values := [studentId, date, status];
    var missing := FirstNull(["attendance.student_id", "attendance.date", "attendance.status"], values);
    if missing.Some? then Err(NotNullFailed(missing.value))
    else
      assert values[0].Text? && values[1].Text? && values[2].Text?;
      var row := Record(|st.attendance| + 1, studentId.text, date.text, status.text);
      Ok(st.(attendance := st.attendance + [row]))
  }

  // ---------------------------------------------------------------------------
  // SELECT ... WHERE c1 AND c2 AND ...
  // ---------------------------------------------------------------------------

  /** One `column = ?` term of a WHERE clause over `students`. */
  datatype StudentCond = DepartmentIs(department: string) | RollNoIs(rollNo: string)

  /** One term of a WHERE clause over `attendance`; `DateBetween` is SQL's inclusive BETWEEN. */
  datatype RecordCond = StudentIdIs(studentId: string) | DateIs(date: string) | DateBetween(low: string, high: string)

  predicate StudentMeets(s: Student, c: StudentCond)
  {
    match c
    case DepartmentIs(d) => s.department == d
    case RollNoIs(r) => s.rollNo == r
  }

  predicate StudentMeetsAll(s: Student, conds: seq<StudentCond>)
  {
    forall k :: 0 <= k < |conds| ==> StudentMeets(s, conds[k])
  }

  predicate RecordMeets(x: Record, c: RecordCond)
  {
    match c
    case StudentIdIs(id) => x.studentId == id
    case DateIs(d) => x.date == d
    case DateBetween(lo, hi) => LexLe(lo, x.date) && LexLe(x.date, hi)
  }

  predicate RecordMeetsAll(x: Record, conds: seq<RecordCond>)
  {
    forall k :: 0 <= k < |conds| ==> RecordMeets(x, conds[k])
  }

  /** `SELECT * FROM students WHERE 1=1 AND ...`, rows in table order. */
  function SelectStudents(rows: seq<Student>, conds: seq<StudentCond>): (r: seq<Student>)
    ensures forall s :: s in r <==> s in rows && StudentMeetsAll(s, conds)
    ensures |r| <= |rows|
    decreases |rows|
  {
    if |rows| == 0 then []
    else
      var last := rows[|rows| - 1];
      var init := SelectStudents(rows[..|rows| - 1], conds);
      if StudentMeetsAll(last, conds) then init + [last] else init
  }

  /** `SELECT * FROM attendance WHERE ...`, rows in table order. */
  function SelectRecords(rows: seq<Record>, conds: seq<RecordCond>): (r: seq<Record>)
    ensures forall x :: x in r <==> x in rows && RecordMeetsAll(x, conds)
    ensures |r| <= |rows|
    decreases |rows|
  {
    if |rows| == 0 then []
    else
      var last := rows[|rows| - 1];
      var init := SelectRecords(rows[..|rows| - 1], conds);
      if RecordMeetsAll(last, conds) then init + [last] else init
  }

  /** The table positions whose rows meet every term of the WHERE clause. */
  ghost function StudentPositions(rows: seq<Student>, conds: seq<StudentCond>): set<int>
  {
    set i | 0 <= i < |rows| && StudentMeetsAll(rows[i], conds)
  }

  lemma StudentPositionsAppend(rows: seq<Student>, s: Student, conds: seq<StudentCond>)
    ensures |StudentPositions(rows + [s], conds)| == |StudentPositions(rows, conds)| + (if StudentMeetsAll(s, conds) then 1 else 0)
  {
    var n := |rows|;
    var all := rows + [s];
    var before := StudentPositions(rows, conds);
    var after := StudentPositions(all, conds);
    var added := if StudentMeetsAll(s, conds) then {n} else {};
    assert after == before + added by {
      forall i
        ensures i in after <==> i in before + added
      {
        if 0 <= i < n {
          assert all[i] == rows[i];
        } else if i == n {
          assert all[i] == s;
        }
      }
    }
    assert n !in before;
  }

  /**
   * Each qualifying row is selected exactly once: the selection is as long as
   * the set of table positions whose rows meet the WHERE clause.
   */
  lemma {:induction false} SelectStudentsCount(rows: seq<Student>, conds: seq<StudentCond>)
    ensures |SelectStudents(rows, conds)| == |StudentPositions(rows, conds)|
    decreases |rows|
  {
    if |rows| == 0 {
      assert StudentPositions(rows, conds) == {};
    } else {
      var n := |rows| - 1;
      var init := rows[..n];
      var s := rows[n];
      assert rows == init + [s];
      SelectStudentsCount(init, conds);
      StudentPositionsAppend(init, s, conds);
    }
  }

  /** A WHERE clause that no row meets selects nothing. */
  lemma {:induction false} SelectStudentsNone(rows: seq<Student>, conds: seq<StudentCond>)
    requires forall i :: 0 <= i < |rows| ==> !StudentMeetsAll(rows[i], conds)
    ensures SelectStudents(rows, conds) == []
    decreases |rows|
  {
    if |rows| > 0 {
      SelectStudentsNone(rows[..|rows| - 1], conds);
    }
  }

  lemma {:induction false} SelectRecordsNone(rows: seq<Record>, conds: seq<RecordCond>)
    requires forall i :: 0 <= i < |rows| ==> !RecordMeetsAll(rows[i], conds)
    ensures SelectRecords(rows, conds) == []
    decreases |rows|
  {
    if |rows| > 0 {
      SelectRecordsNone(rows[..|rows| - 1], conds);
    }
  }

  /** Selecting from a table with one more row at the end. */
  lemma SelectRecordsAppend(rows: seq<Record>, x: Record, conds: seq<RecordCond>)
    ensures RecordMeetsAll(x, conds) ==> SelectRecords(rows + [x], conds) == SelectRecords(rows, conds) + [x]
    ensures !RecordMeetsAll(x, conds) ==> SelectRecords(rows + [x], conds) == SelectRecords(rows, conds)
  {
  }

  /**
   * Under the UNIQUE constraint on `roll_no`, a WHERE clause that pins the
   * roll number returns at most one student.
   */
  lemma {:induction false} SelectByRollNoAtMostOne(rows: seq<Student>, conds: seq<StudentCond>, rollNo: string)
    requires UniqueRollNos(rows)
    requires RollNoIs(rollNo) in conds
    ensures |SelectStudents(rows, conds)| <= 1
    decreases |rows|
  {
    if |rows| > 0 {
      var n := |rows| - 1;
      var init := rows[..n];
      assert UniqueRollNos(init);
      SelectByRollNoAtMostOne(init, conds, rollNo);
      if StudentMeetsAll(rows[n], conds) {
        var k :| 0 <= k < |conds| && conds[k] == RollNoIs(rollNo);
        assert StudentMeets(rows[n], conds[k]);
        forall i | 0 <= i < n
          ensures !StudentMeetsAll(init[i], conds)
        {
          assert rows[i].rollNo != rows[n].rollNo;
          assert !StudentMeets(init[i], conds[k]);
        }
        SelectStudentsNone(init, conds);
      }
    }
  }
}
