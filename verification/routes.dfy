/**
 * The write routes and the student listing of the HTTP service, each as a pure
 * function of the store. A route that fails returns its error together with
 * the store it was given, unchanged.
 */
module Routes {
  import opened Wrappers
  import opened Database

  /** The body of `POST /students`; the e-mail address is taken as already validated. */
  datatype StudentForm = StudentForm(name: string, rollNo: string, department: string, email: string)

  /** The body of `POST /attendance`; `status` is free text. */
  datatype AttendanceForm = AttendanceForm(studentId: string, date: string, status: string)

  /**
   * Why a route fails: the explicit 404 of the attendance route, or a storage
   * error no handler catches, which the framework answers with a 500.
   */
  datatype Failure = NotFound(detail: string) | Internal(cause: StorageError)

  /** The HTTP status of a failure: a client error for the lookup, a server error otherwise. */
  function StatusCode(f: Failure): (code: nat)
    ensures code == 404 <==> f.NotFound?
    ensures code == 500 <==> f.Internal?
    ensures 400 <= code < 600
  {
    match f
    case NotFound(_) => 404
    case Internal(_) => 500
  }

  /** A route's answer and the store after it ran. */
  datatype Outcome<T> = Outcome(response: Result<T, Failure>, store: Store)

  /** Python truthiness of an `Optional[str]` query parameter: neither `None` nor `""`. */
  predicate Supplied(o: Option<string>)
    ensures !Supplied(o) <==> o == None || o == Some("")
  {
    o.Some? && o.value != ""
  }

  /** Whether a student matches every supplied filter of `GET /students`. */
  predicate Matches(s: Student, department: Option<string>, rollNo: Option<string>)
  {
    && (Supplied(department) ==> s.department == department.value)
    && (Supplied(rollNo) ==> s.rollNo == rollNo.value)
  }

  /** The WHERE terms `get_students` appends to `WHERE 1=1`, one per supplied filter. */
  function StudentFilters(department: Option<string>, rollNo: Option<string>): (r: seq<StudentCond>)
    ensures forall s :: StudentMeetsAll(s, r) <==> Matches(s, department, rollNo)
    ensures |r| == (if Supplied(department) then 1 else 0) + (if Supplied(rollNo) then 1 else 0)
    ensures Supplied(rollNo) ==> r[|r| - 1] == RollNoIs(rollNo.value)
  {
    var r := (if Supplied(department) then [DepartmentIs(department.value)] else [])
      + (if Supplied(rollNo) then [RollNoIs(rollNo.value)] else []);
    assert forall s :: StudentMeetsAll(s, r) <==> Matches(s, department, rollNo) by {
      forall s
        ensures StudentMeetsAll(s, r) <==> Matches(s, department, rollNo)
      {
        if Supplied(department) {
          assert r[0] == DepartmentIs(department.value);
        }
        if Supplied(rollNo) {
          assert r[|r| - 1] == RollNoIs(rollNo.value);
        }
      }
    }
    r
  }

  /** `POST /students`: insert the submitted student, relying on the UNIQUE constraints. */
  function AddStudent(st: Store, form: StudentForm): (r: Outcome<StudentForm>)
    ensures r.response.Ok? <==> !RollNoTaken(st.students, form.rollNo) && !EmailTaken(st.students, form.email)
    ensures r.response.Err? ==>
      && r.store == st
      && r.response.error == Internal(UniqueFailed(if RollNoTaken(st.students, form.rollNo) then "students.roll_no" else "students.email"))
      && StatusCode(r.response.error) == 500
    ensures r.response.Ok? ==>
      && r.response.value == form
      && r.store.students == st.students + [Student(|st.students| + 1, form.name, form.rollNo, form.department, form.email)]
      && r.store.attendance == st.attendance
      && r.store.users == st.users
    ensures Valid(st) ==> Valid(r.store)
  {
    match InsertStudent(st, Text(form.name), Text(form.rollNo), Text(form.department), Text(form.email))
    case Ok(st') => Outcome(Ok(form), st')
    case Err(e) => Outcome(Err(Internal(e)), st)
  }

  /** The table positions of the students that `GET /students` lists. */
  ghost function ListedPositions(st: Store, department: Option<string>, rollNo: Option<string>): set<int>
  {
    set i | 0 <= i < |st.students| && Matches(st.students[i], department, rollNo)
  }

  /**
   * `GET /students`: the students meeting every supplied filter, each matching
   * row exactly once.
   */
  function ListStudents(st: Store, department: Option<string>, rollNo: Option<string>): (r: seq<Student>)
    ensures forall s :: s in r <==> s in st.students && Matches(s, department, rollNo)
    ensures |r| == |ListedPositions(st, department, rollNo)|
    ensures |r| <= |st.students|
  {
    var conds := StudentFilters(department, rollNo);
    SelectStudentsCount(st.students, conds);
    assert StudentPositions(st.students, conds) == ListedPositions(st, department, rollNo);
    SelectStudents(st.students, conds)
  }

  /** With no filter supplied the listing is the whole table, in table order. */
  lemma {:induction false} ListUnfilteredIsEverything(st: Store, department: Option<string>, rollNo: Option<string>)
    requires !Supplied(department) && !Supplied(rollNo)
    ensures ListStudents(st, department, rollNo) == st.students
  {
    assert StudentFilters(department, rollNo) == [];
    SelectNoConditions(st.students);
  }

  lemma {:induction false} SelectNoConditions(rows: seq<Student>)
    ensures SelectStudents(rows, []) == rows
    decreases |rows|
  {
    if |rows| > 0 {
      SelectNoConditions(rows[..|rows| - 1]);
      assert rows == rows[..|rows| - 1] + [rows[|rows| - 1]];
    }
  }

  /** An empty string is no filter at all. */
  lemma EmptyStringIsNoFilter(st: Store, department: Option<string>, rollNo: Option<string>)
    ensures ListStudents(st, Some(""), rollNo) == ListStudents(st, None, rollNo)
    ensures ListStudents(st, department, Some("")) == ListStudents(st, department, None)
  {
  }

  /** Two filters combine by AND: the result is what both single-filter listings share. */
  lemma FiltersConjoin(st: Store, department: Option<string>, rollNo: Option<string>)
    ensures forall s :: s in ListStudents(st, department, rollNo) <==>
      s in ListStudents(st, department, None) && s in ListStudents(st, None, rollNo)
  {
  }

  /** Filtering by roll number finds at most one student in a valid store. */
  lemma ListByRollNoAtMostOne(st: Store, department: Option<string>, rollNo: Option<string>)
    requires Valid(st)
    requires Supplied(rollNo)
    ensures |ListStudents(st, department, rollNo)| <= 1
  {
    var conds := StudentFilters(department, rollNo);
    SelectByRollNoAtMostOne(st.students, conds, rollNo.value);
  }

  /**
   * `POST /attendance`: look the student up by roll number, answer 404 if
   * there is none, otherwise append one attendance row.
   */
  function MarkAttendance(st: Store, form: AttendanceForm): (r: Outcome<AttendanceForm>)
    ensures r.response.Ok? <==> RollNoTaken(st.students, form.studentId)
    ensures r.response.Err? ==>
      && r.store == st
      && r.response.error == NotFound("Student not found")
      && StatusCode(r.response.error) == 404
    ensures r.response.Ok? ==>
      && r.response.value == form
      && r.store.attendance == st.attendance + [Record(|st.attendance| + 1, form.studentId, form.date, form.status)]
      && r.store.students == st.students
      && r.store.users == st.users
    ensures Valid(st) ==> Valid(r.store)
  {
    var found := SelectStudents(st.students, [RollNoIs(form.studentId)]);
    assert |found| > 0 <==> RollNoTaken(st.students, form.studentId) by {
      if |found| > 0 {
        assert found[0] in found;
        var i :| 0 <= i < |st.students| && st.students[i] == found[0];
        assert StudentMeets(found[0], [RollNoIs(form.studentId)][0]);
      }
      if RollNoTaken(st.students, form.studentId) {
        var i :| 0 <= i < |st.students| && st.students[i].rollNo == form.studentId;
        assert StudentMeetsAll(st.students[i], [RollNoIs(form.studentId)]);
      }
    }
    if |found| == 0 then Outcome(Err(NotFound("Student not found")), st)
    else
      match InsertRecord(st, Text(form.studentId), Text(form.date), Text(form.status))
      case Ok(st') => Outcome(Ok(form), st')
      case Err(e) => Outcome(Err(Internal(e)), st)
  }
}
