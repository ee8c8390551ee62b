/** The record store and the handlers that change it. Each handler is a
    method of `Store` that takes the request's `Authorization` header and
    the token decoder, runs the guard and the role gate, and returns the
    HTTP status it answers with. A request that ends in an error status
    changes nothing: the handlers commit once, at the end. */
module Handlers {
  import opened Text
  import opened Dates
  import opened Records
  import opened Admission
  import opened Credentials
  import Attendance
  import Results
  import opened Auth
  import opened Report
  import opened Share

  /** Python truthiness of an optional text: present and not empty. */
  predicate Given(x: Option<string>)
  {
    x.Some? && x.value != ""
  }

  /** The filter of `Student.query.filter_by(class_level=..)`. */
  function StudentOfClass(classLevel: string): Student -> bool
  {
    (s: Student) => s.classLevel == classLevel
  }

  /** The filter of `Test.query.filter_by(class_level=..)`. */
  function TestOfClass(classLevel: string): Test -> bool
  {
    (t: Test) => t.classLevel == classLevel
  }

  /** The students' table as `add_student` keeps it: unique usernames and
      admission numbers, and the credentials derived from the name. */
  ghost predicate StudentsValid(students: seq<Student>)
  {
    && (forall i, j :: 0 <= i < j < |students| ==> students[i].username != students[j].username)
    && UniqueAdmissionNumbers(students)
    && (forall i :: 0 <= i < |students| ==> Lowered(students[i].username))
    && (forall i :: 0 <= i < |students| ==> students[i].password == Password(students[i].username))
  }

  /** Appending a student with a fresh username and admission number and
      derived credentials keeps the invariant. */
  lemma AppendKeepsValid(students: seq<Student>, s: Student)
    requires StudentsValid(students)
    requires Lowered(s.username) && s.password == Password(s.username)
    requires FindByAdmissionNumber(students, s.admissionNumber).None?
    requires FindByUsername(students, s.username).None?
    ensures StudentsValid(students + [s])
  {
    var t := students + [s];
    var k := |students|;
    assert t[k] == s;
    assert forall i :: 0 <= i < k ==> t[i] == students[i];
    forall i, j | 0 <= i < j < |t|
      ensures t[i].username != t[j].username && t[i].admissionNumber != t[j].admissionNumber
    {
      if j == k {
        assert t[i] == students[i];
      } else {
        assert t[i] == students[i] && t[j] == students[j];
      }
    }
  }

  /** The appended student can log in with either login name. */
  lemma AppendedLogsIn(students: seq<Student>, s: Student, classLevel: string, n: int)
    requires StudentsValid(students + [s])
    requires s.admissionNumber == AdmissionNumber(classLevel, n) && s.username != ""
    ensures StudentLogin(students + [s], Some(s.username), Some(s.password)) == Issued(Claims(None, Some(|students| + 1)))
    ensures StudentLogin(students + [s], Some(s.admissionNumber), Some(s.password)) == Issued(Claims(None, Some(|students| + 1)))
  {
    AppendedUsernameLogsIn(students, s);
    AppendedNumberLogsIn(students, s, classLevel, n);
  }

  /** The appended student logs in with the username. */
  lemma AppendedUsernameLogsIn(students: seq<Student>, s: Student)
    requires StudentsValid(students + [s]) && s.username != ""
    ensures StudentLogin(students + [s], Some(s.username), Some(s.password)) == Issued(Claims(None, Some(|students| + 1)))
  {
    var t := students + [s];
    var k := |students|;
    assert t[k] == s;
    assert s.password == Password(s.username);
    forall j | 0 <= j < |t| && j != k
      ensures t[j].username != t[k].username
    {
      assert j < k;
    }
    LoginWithUsername(t, k);
  }

  /** The appended student logs in with the admission number too. */
  lemma AppendedNumberLogsIn(students: seq<Student>, s: Student, classLevel: string, n: int)
    requires StudentsValid(students + [s]) && s.admissionNumber == AdmissionNumber(classLevel, n)
    ensures StudentLogin(students + [s], Some(s.admissionNumber), Some(s.password)) == Issued(Claims(None, Some(|students| + 1)))
  {
    assert (students + [s])[|students|] == s;
    NumberLogsIn(students + [s], |students|, s, classLevel, n);
  }

  /** In a valid table, a student with a generated admission number logs
      in with it. */
  lemma NumberLogsIn(t: seq<Student>, k: nat, s: Student, classLevel: string, n: int)
    requires StudentsValid(t) && k < |t| && t[k] == s && s.admissionNumber == AdmissionNumber(classLevel, n)
    ensures StudentLogin(t, Some(s.admissionNumber), Some(s.password)) == Issued(Claims(None, Some(k + 1)))
  {
    assert s.password == Password(s.username);
    LoginWithAdmissionNumber(t, k, classLevel, n);
  }

  class Store {
    var admins: seq<Admin>
    var students: seq<Student>
    var attendance: seq<AttendanceRecord>
    var tests: seq<Test>
    var results: seq<TestResult>
    /** The paths of the files that exist on disk. */
    var files: set<string>

    /** What the database's unique columns and the handlers keep true:
        unique admin usernames, the students' invariant, one attendance
        record per (student, date), one result per (test, student), and
        every result belonging to an existing test. */
    ghost predicate Valid()
      reads this
    {
      && (forall i, j :: 0 <= i < j < |admins| ==> admins[i].username != admins[j].username)
      && StudentsValid(students)
      && Attendance.KeysUnique(attendance)
      && Results.KeysUnique(results)
      && (forall i :: 0 <= i < |results| ==> 1 <= results[i].testId <= |tests|)
    }

    /** `create_tables_and_admin` on an empty database: the one predefined
        admin, with no class selected. */
    constructor Init()
      ensures Valid()
      ensures admins == [Admin("pcc", "pcc@8618", "")]
      ensures students == [] && attendance == [] && tests == [] && results == [] && files == {}
    {
      admins := [Admin("pcc", "pcc@8618", "")];
      students := [];
      attendance := [];
      tests := [];
      results := [];
      files := {};
    }

    /** The early answer of an admin-only handler, if any. */
    function AdminDenied(header: Option<string>, decode: string -> Option<Claims>): Option<int>
      reads this
    {
      AdminGate(Authenticate(header, decode, admins, students))
    }

    /** The early answer of a student-only handler, if any. */
    function StudentDenied(header: Option<string>, decode: string -> Option<Claims>): Option<int>
      reads this
    {
      StudentGate(Authenticate(header, decode, admins, students))
    }

    /** The student `add_student` would insert. */
    function NewStudent(name: string, email: Option<string>, phone: Option<string>, schoolName: Option<string>,
                        classLevel: string, n: int, today: Date): (r: Student)
      ensures r.admissionNumber == AdmissionNumber(classLevel, n) && r.classLevel == classLevel
      ensures r.username == Username(name) && r.password == Password(r.username)
      ensures r.name == name && r.admissionDate == today
      ensures (email.None? ==> r.email == "") && (email.Some? ==> r.email == email.value)
      ensures (phone.None? ==> r.phone == "") && (phone.Some? ==> r.phone == phone.value)
      ensures (schoolName.None? ==> r.schoolName == "") && (schoolName.Some? ==> r.schoolName == schoolName.value)
    {
      Student(AdmissionNumber(classLevel, n), Username(name), Password(Username(name)), name,
              if email.Some? then email.value else "", if phone.Some? then phone.value else "",
              if schoolName.Some? then schoolName.value else "", classLevel, today)
    }

    /** `add_student`: 400 without a name or a class level; 500 when the
        counter cannot be read back from the class's newest number or when
        the number or the username is already taken; otherwise the student
        is appended with the next number of the class and the derived
        credentials, which log them in. */
    method AddStudent(header: Option<string>, decode: string -> Option<Claims>,
                      name: Option<string>, email: Option<string>, phone: Option<string>,
                      schoolName: Option<string>, classLevel: Option<string>, today: Date)
      returns (status: int, admissionNumber: string, username: string, password: string)
      requires Valid()
      modifies this
      ensures Valid()
      ensures old(AdminDenied(header, decode)).Some? ==> status == old(AdminDenied(header, decode)).value
      ensures old(AdminDenied(header, decode)).None? && (!Given(name) || !Given(classLevel)) ==> status == 400
      ensures (old(AdminDenied(header, decode)).None? && Given(name) && Given(classLevel)
               && NextNumber(old(students), classLevel.value).None?) ==> status == 500
      ensures (old(AdminDenied(header, decode)).None? && Given(name) && Given(classLevel)
               && NextNumber(old(students), classLevel.value).Some?
               && (|| FindByAdmissionNumber(old(students), AdmissionNumber(classLevel.value, NextNumber(old(students), classLevel.value).value)).Some?
                   || FindByUsername(old(students), Username(name.value)).Some?)) ==> status == 500
      ensures status == 201 <==>
                && old(AdminDenied(header, decode)).None? && Given(name) && Given(classLevel)
                && NextNumber(old(students), classLevel.value).Some?
                && FindByAdmissionNumber(old(students), AdmissionNumber(classLevel.value, NextNumber(old(students), classLevel.value).value)).None?
                && FindByUsername(old(students), Username(name.value)).None?
      ensures status == 201 ==>
                && admissionNumber == AdmissionNumber(classLevel.value, NextNumber(old(students), classLevel.value).value)
                && username == Username(name.value) && password == Password(username)
                && students == old(students) + [NewStudent(name.value, email, phone, schoolName, classLevel.value,
                                                           NextNumber(old(students), classLevel.value).value, today)]
                && admins == old(admins) && attendance == old(attendance) && tests == old(tests)
                && results == old(results) && files == old(files)
      ensures status == 201 ==>
                && StudentLogin(students, Some(username), Some(password)) == Issued(Claims(None, Some(|students|)))
                && StudentLogin(students, Some(admissionNumber), Some(password)) == Issued(Claims(None, Some(|students|)))
      ensures status != 201 ==> unchanged(this)
    {
      admissionNumber, username, password := "", "", "";
      var denied := AdminDenied(header, decode);
      if denied.Some? {
        return denied.value, admissionNumber, username, password;
      }
      if !Given(name) || !Given(classLevel) {
        return 400, admissionNumber, username, password;
      }
      var next := NextNumber(students, classLevel.value);
      if next.None? {
        return 500, admissionNumber, username, password;
      }
      status, admissionNumber, username, password :=
        Admit(name.value, email, phone, schoolName, classLevel.value, next.value, today);
    }

    /** The insert of `add_student` once the counter is known: a number or
        a username already taken makes the commit fail (500) and nothing
        changes; otherwise the new student is appended and can log in with
        either identifier. */
    method Admit(name: string, email: Option<string>, phone: Option<string>,
                 schoolName: Option<string>, classLevel: string, n: int, today: Date)
      returns (status: int, admissionNumber: string, username: string, password: string)
      requires Valid() && name != "" && classLevel != ""
      modifies this
      ensures Valid()
      ensures status == 201 || status == 500
      ensures status == 201 <==>
                && FindByAdmissionNumber(old(students), AdmissionNumber(classLevel, n)).None?
                && FindByUsername(old(students), Username(name)).None?
      ensures status == 201 ==>
                && admissionNumber == AdmissionNumber(classLevel, n)
                && username == Username(name) && password == Password(username)
                && students == old(students) + [NewStudent(name, email, phone, schoolName, classLevel, n, today)]
                && admins == old(admins) && attendance == old(attendance) && tests == old(tests)
                && results == old(results) && files == old(files)
      ensures status == 201 ==>
                && StudentLogin(students, Some(username), Some(password)) == Issued(Claims(None, Some(|students|)))
                && StudentLogin(students, Some(admissionNumber), Some(password)) == Issued(Claims(None, Some(|students|)))
      ensures status != 201 ==> unchanged(this)
    {
      admissionNumber := AdmissionNumber(classLevel, n);
      username := Username(name);
      password := Password(username);
      if FindByAdmissionNumber(students, admissionNumber).Some? || FindByUsername(students, username).Some? {
        return 500, "", "", "";
      }
      var s := NewStudent(name, email, phone, schoolName, classLevel, n, today);
      UsernameShape(name);
      AppendKeepsValid(students, s);
      AppendedLogsIn(students, s, classLevel, n);
      students := students + [s];
      status := 201;
    }

    /** `mark_attendance`: a missing date is 500 (`strptime(None)` raises a
        `TypeError` nothing catches), a malformed one 400, a missing list
        500; otherwise each entry upserts the record of its student on that
        date, in order. */
    method MarkAttendance(header: Option<string>, decode: string -> Option<Claims>,
                          dateText: Option<string>, marks: Option<seq<Attendance.Mark>>)
      returns (status: int)
      requires Valid()
      modifies this
      ensures Valid()
      ensures old(AdminDenied(header, decode)).Some? ==> status == old(AdminDenied(header, decode)).value
      ensures old(AdminDenied(header, decode)).None? && dateText.None? ==> status == 500
      ensures old(AdminDenied(header, decode)).None? && dateText.Some? && ParseDate(dateText.value).None? ==> status == 400
      ensures old(AdminDenied(header, decode)).None? && dateText.Some? && ParseDate(dateText.value).Some? && marks.None? ==> status == 500
      ensures status == 200 <==>
                old(AdminDenied(header, decode)).None? && dateText.Some? && ParseDate(dateText.value).Some? && marks.Some?
      ensures status == 200 ==>
                && attendance == Attendance.UpsertAll(old(attendance), ParseDate(dateText.value).value, marks.value)
                && admins == old(admins) && students == old(students) && tests == old(tests)
                && results == old(results) && files == old(files)
      ensures status != 200 ==> unchanged(this)
    {
      var denied := AdminDenied(header, decode);
      if denied.Some? {
        return denied.value;
      }
      if dateText.None? {
        return 500;
      }
      var parsed := ParseDate(dateText.value);
      if parsed.None? {
        return 400;
      }
      if marks.None? {
        return 500;
      }
      var date := parsed.value;
      var t := Attendance.ApplyMarks(attendance, date, marks.value);
      Attendance.UpsertAllKeepsUnique(attendance, date, marks.value);
      attendance := t;
      status := 200;
    }

    /** `add_test`: a missing date is 500, a malformed one 400; a missing
        name, subject, class level or maximum violates a not-null column,
        500; otherwise the test is appended and its id returned. */
    method AddTest(header: Option<string>, decode: string -> Option<Claims>,
                   name: Option<string>, subject: Option<string>, classLevel: Option<string>,
                   dateText: Option<string>, maxMarks: Option<int>)
      returns (status: int, testId: int)
      requires Valid()
      modifies this
      ensures Valid()
      ensures old(AdminDenied(header, decode)).Some? ==> status == old(AdminDenied(header, decode)).value
      ensures old(AdminDenied(header, decode)).None? && dateText.None? ==> status == 500
      ensures old(AdminDenied(header, decode)).None? && dateText.Some? && ParseDate(dateText.value).None? ==> status == 400
      ensures (old(AdminDenied(header, decode)).None? && dateText.Some? && ParseDate(dateText.value).Some?
               && (name.None? || subject.None? || classLevel.None? || maxMarks.None?)) ==> status == 500
      ensures status == 200 <==>
                && old(AdminDenied(header, decode)).None? && dateText.Some? && ParseDate(dateText.value).Some?
                && name.Some? && subject.Some? && classLevel.Some? && maxMarks.Some?
      ensures status == 200 ==>
                && tests == old(tests) + [Test(name.value, subject.value, classLevel.value,
                                               ParseDate(dateText.value).value, maxMarks.value)]
                && testId == |tests| && Get(tests, testId) == Some(tests[|tests| - 1])
                && admins == old(admins) && students == old(students) && attendance == old(attendance)
                && results == old(results) && files == old(files)
      ensures status != 200 ==> unchanged(this)
    {
      testId := 0;
      var denied := AdminDenied(header, decode);
      if denied.Some? {
        return denied.value, testId;
      }
      if dateText.None? {
        return 500, testId;
      }
      var parsed := ParseDate(dateText.value);
      if parsed.None? {
        return 400, testId;
      }
      if name.None? || subject.None? || classLevel.None? || maxMarks.None? {
        return 500, testId;
      }
      tests := tests + [Test(name.value, subject.value, classLevel.value, parsed.value, maxMarks.value)];
      testId := |tests|;
      status := 200;
    }

    /** `add_test_results`: 404 for an unknown test, 500 for a missing
        list; otherwise each entry upserts the result of its student for
        the test, in order. */
    method AddTestResults(header: Option<string>, decode: string -> Option<Claims>,
                          testId: int, entries: Option<seq<Results.Entry>>)
      returns (status: int)
      requires Valid()
      modifies this
      ensures Valid()
      ensures old(AdminDenied(header, decode)).Some? ==> status == old(AdminDenied(header, decode)).value
      ensures old(AdminDenied(header, decode)).None? && Get(old(tests), testId).None? ==> status == 404
      ensures old(AdminDenied(header, decode)).None? && Get(old(tests), testId).Some? && entries.None? ==> status == 500
      ensures status == 200 <==>
                old(AdminDenied(header, decode)).None? && Get(old(tests), testId).Some? && entries.Some?
      ensures status == 200 ==>
                && results == Results.UpsertAll(old(results), testId, entries.value)
                && admins == old(admins) && students == old(students) && attendance == old(attendance)
                && tests == old(tests) && files == old(files)
      ensures status != 200 ==> unchanged(this)
    {
      var denied := AdminDenied(header, decode);
      if denied.Some? {
        return denied.value;
      }
      if Get(tests, testId).None? {
        return 404;
      }
      if entries.None? {
        return 500;
      }
      var t := Results.ApplyEntries(results, testId, entries.value);
      Results.UpsertAllKeepsUnique(results, testId, entries.value);
      Results.UpsertAllFrame(results, testId, entries.value);
      results := t;
      status := 200;
    }

    /** `get_test_result_pdf`, for a student: 404 for an unknown result;
        otherwise the cache rule of `ResultPdf` decides, and a rebuilt file
        is recorded on the result and on disk. Any student may fetch any
        result: the result's owner is not checked. */
    method GetTestResultPdf(header: Option<string>, decode: string -> Option<Claims>,
                            resultId: int, build: Build)
      returns (status: int, path: string)
      requires Valid()
      requires build.Built? ==> build.path != ""
      modifies this
      ensures Valid()
      ensures old(StudentDenied(header, decode)).Some? ==> status == old(StudentDenied(header, decode)).value
      ensures old(StudentDenied(header, decode)).None? && Get(old(results), resultId).None? ==> status == 404
      ensures old(StudentDenied(header, decode)).None? && Get(old(results), resultId).Some? ==>
                var r := old(results)[resultId - 1];
                var o := ResultPdf(r, Get(old(tests), r.testId), Get(old(students), r.studentId), old(files), build);
                && (o.PdfError? ==> status == o.status && unchanged(this))
                && (o.Served? ==> status == 200 && path == o.path && path in files && path != "")
                && (o.Served? && !o.rebuilt ==> unchanged(this))
                && (o.Served? && o.rebuilt ==>
                      && results == old(results)[resultId - 1 := r.(pdfPath := o.path)]
                      && files == old(files) + {o.path}
                      && admins == old(admins) && students == old(students)
                      && attendance == old(attendance) && tests == old(tests))
      ensures status != 200 ==> unchanged(this)
    {
      path := "";
      var denied := StudentDenied(header, decode);
      if denied.Some? {
        return denied.value, path;
      }
      if Get(results, resultId).None? {
        return 404, path;
      }
      var k := resultId - 1;
      var r := results[k];
      CacheRule(r, Get(tests, r.testId), Get(students, r.studentId), files, build);
      if !NeedsRebuild(r.pdfPath, files) {
        return 200, r.pdfPath;
      }
      if Get(tests, r.testId).None? || Get(students, r.studentId).None? {
        return 500, path;
      }
      if tests[r.testId - 1].maxMarks == 0 {
        return 500, path;
      }
      if build.BuildFailed? {
        return 500, path;
      }
      path := build.path;
      files := files + {path};
      results := results[k := r.(pdfPath := path)];
      status := 200;
    }

    /** `select_class`: 400 without a class level; otherwise the calling
        admin's selected class becomes it. */
    method SelectClass(header: Option<string>, decode: string -> Option<Claims>, classLevel: Option<string>)
      returns (status: int)
      requires Valid()
      modifies this
      ensures Valid()
      ensures old(AdminDenied(header, decode)).Some? ==> status == old(AdminDenied(header, decode)).value
      ensures old(AdminDenied(header, decode)).None? && !Given(classLevel) ==> status == 400
      ensures status == 200 <==> old(AdminDenied(header, decode)).None? && Given(classLevel)
      ensures status == 200 ==>
                var id := old(Authenticate(header, decode, admins, students)).user.id;
                && |admins| == |old(admins)|
                && admins[id - 1] == old(admins)[id - 1].(selectedClass := classLevel.value)
                && (forall j :: 0 <= j < |admins| && j != id - 1 ==> admins[j] == old(admins)[j])
                && students == old(students) && attendance == old(attendance) && tests == old(tests)
                && results == old(results) && files == old(files)
      ensures status != 200 ==> unchanged(this)
    {
      var who := Authenticate(header, decode, admins, students);
      var denied := AdminGate(who);
      if denied.Some? {
        return denied.value;
      }
      if !Given(classLevel) {
        return 400;
      }
      var k := who.user.id - 1;
      admins := admins[k := admins[k].(selectedClass := classLevel.value)];
      status := 200;
    }

    /** The class the calling admin has selected, "" when none. */
    function SelectedClass(header: Option<string>, decode: string -> Option<Claims>): (c: string)
      reads this
      requires AdminDenied(header, decode).None?
      ensures var caller := Authenticate(header, decode, admins, students);
              && caller.Authorized? && caller.user.AdminUser? && 1 <= caller.user.id <= |admins|
              && c == admins[caller.user.id - 1].selectedClass
    {
      admins[Authenticate(header, decode, admins, students).user.id - 1].selectedClass
    }

    /** `get_class_students`: 400 when the admin has selected no class;
        otherwise one entry per student of the selected class, in id
        order, each carrying the student's id and record. */
    method ClassStudents(header: Option<string>, decode: string -> Option<Claims>)
      returns (status: int, list: seq<(int, Student)>)
      ensures AdminDenied(header, decode).Some? ==> status == AdminDenied(header, decode).value
      ensures AdminDenied(header, decode).None? && SelectedClass(header, decode) == "" ==> status == 400
      ensures status == 200 <==> AdminDenied(header, decode).None? && SelectedClass(header, decode) != ""
      ensures status == 200 ==>
                var ps := Positions(students, StudentOfClass(SelectedClass(header, decode)));
                && |list| == |ps|
                && forall k :: 0 <= k < |list| ==> list[k] == (ps[k] + 1, students[ps[k]])
      ensures status != 200 ==> list == []
    {
      list := [];
      var denied := AdminDenied(header, decode);
      if denied.Some? {
        return denied.value, list;
      }
      var selected := SelectedClass(header, decode);
      if selected == "" {
        return 400, list;
      }
      list := Listing(students, Positions(students, StudentOfClass(selected)));
      status := 200;
    }

    /** `get_class_tests`: 400 when the admin has selected no class;
        otherwise one entry per test of the selected class, in id order,
        each carrying the test's id and record. */
    method ClassTests(header: Option<string>, decode: string -> Option<Claims>)
      returns (status: int, list: seq<(int, Test)>)
      ensures AdminDenied(header, decode).Some? ==> status == AdminDenied(header, decode).value
      ensures AdminDenied(header, decode).None? && SelectedClass(header, decode) == "" ==> status == 400
      ensures status == 200 <==> AdminDenied(header, decode).None? && SelectedClass(header, decode) != ""
      ensures status == 200 ==>
                var ps := Positions(tests, TestOfClass(SelectedClass(header, decode)));
                && |list| == |ps|
                && forall k :: 0 <= k < |list| ==> list[k] == (ps[k] + 1, tests[ps[k]])
      ensures status != 200 ==> list == []
    {
      list := [];
      var denied := AdminDenied(header, decode);
      if denied.Some? {
        return denied.value, list;
      }
      var selected := SelectedClass(header, decode);
      if selected == "" {
        return 400, list;
      }
      list := Listing(tests, Positions(tests, TestOfClass(selected)));
      status := 200;
    }

    /** `generate_test_results_pdf`: 404 for an unknown test or one with
        no results; 500 when a row divides by a zero maximum or the build
        fails; otherwise the table is the header and one row per result
        whose student exists, the file exists, and every result of the
        test, and no other, now names it. */
    method GenerateTestResultsPdf(header: Option<string>, decode: string -> Option<Claims>,
                                  testId: int, build: Build)
      returns (status: int, table: seq<seq<Cell>>)
      requires Valid()
      requires build.Built? ==> build.path != ""
      modifies this
      ensures Valid()
      ensures old(AdminDenied(header, decode)).Some? ==> status == old(AdminDenied(header, decode)).value
      ensures old(AdminDenied(header, decode)).None? && Get(old(tests), testId).None? ==> status == 404
      ensures (old(AdminDenied(header, decode)).None? && Get(old(tests), testId).Some?
               && Results.OfTest(old(results), testId) == []) ==> status == 404
      ensures (old(AdminDenied(header, decode)).None? && Get(old(tests), testId).Some?
               && Results.OfTest(old(results), testId) != []
               && (!Computable(Results.OfTest(old(results), testId), old(students), old(tests)[testId - 1].maxMarks)
                   || build.BuildFailed?)) ==> status == 500
      ensures status == 200 <==>
                && old(AdminDenied(header, decode)).None? && Get(old(tests), testId).Some?
                && Results.OfTest(old(results), testId) != []
                && Computable(Results.OfTest(old(results), testId), old(students), old(tests)[testId - 1].maxMarks)
                && build.Built?
      ensures status == 200 ==>
                && table == [Header] + Rows(Results.OfTest(old(results), testId), old(students), old(tests)[testId - 1].maxMarks)
                && files == old(files) + {build.path}
                && results == Results.Stamp(old(results), testId, build.path)
                && admins == old(admins) && students == old(students)
                && attendance == old(attendance) && tests == old(tests)
      ensures status != 200 ==> unchanged(this)
    {
      table := [];
      var denied := AdminDenied(header, decode);
      if denied.Some? {
        return denied.value, table;
      }
      if Get(tests, testId).None? {
        return 404, table;
      }
      var test := tests[testId - 1];
      var ofTest := Results.OfTest(results, testId);
      if ofTest == [] {
        return 404, table;
      }
      var ok, data := BuildTable(ofTest, students, test.maxMarks);
      if !ok {
        return 500, table;
      }
      if build.BuildFailed? {
        return 500, table;
      }
      Publish(testId, build.path);
      table := data;
      status := 200;
    }

    /** The commit of `generate_test_results_pdf`: the file is on disk and
        every result of the test, and no other, names it. */
    method Publish(testId: int, path: string)
      requires Valid()
      modifies this
      ensures Valid()
      ensures files == old(files) + {path}
      ensures results == Results.Stamp(old(results), testId, path)
      ensures admins == old(admins) && students == old(students)
      ensures attendance == old(attendance) && tests == old(tests)
    {
      files := files + {path};
      var t := Results.StampPaths(results, testId, path);
      Results.StampKeepsKeys(results, testId, path);
      assert forall i :: 0 <= i < |t| ==> t[i].testId == results[i].testId;
      results := t;
    }

    /** `share_results_whatsapp`: 404 for an unknown test; 400 unless the
        test's first result names an existing file; otherwise every result
        of the test, and no other, is marked shared, and the share link
        for the test is returned. */
    method ShareResultsWhatsapp(header: Option<string>, decode: string -> Option<Claims>, testId: int)
      returns (status: int, link: string)
      requires Valid()
      modifies this
      ensures Valid()
      ensures old(AdminDenied(header, decode)).Some? ==> status == old(AdminDenied(header, decode)).value
      ensures old(AdminDenied(header, decode)).None? && Get(old(tests), testId).None? ==> status == 404
      ensures (old(AdminDenied(header, decode)).None? && Get(old(tests), testId).Some?
               && (|| Results.FirstOfTest(old(results), testId).None?
                   || NeedsRebuild(old(results)[Results.FirstOfTest(old(results), testId).value].pdfPath, old(files))))
              ==> status == 400
      ensures status == 200 <==>
                && old(AdminDenied(header, decode)).None? && Get(old(tests), testId).Some?
                && Results.FirstOfTest(old(results), testId).Some?
                && !NeedsRebuild(old(results)[Results.FirstOfTest(old(results), testId).value].pdfPath, old(files))
      ensures status == 200 ==>
                && link == ShareLink(old(tests)[testId - 1])
                && results == Results.MarkShared(old(results), testId)
                && admins == old(admins) && students == old(students) && attendance == old(attendance)
                && tests == old(tests) && files == old(files)
      ensures status != 200 ==> unchanged(this)
    {
      link := "";
      var denied := AdminDenied(header, decode);
      if denied.Some? {
        return denied.value, link;
      }
      if Get(tests, testId).None? {
        return 404, link;
      }
      var first := Results.FirstOfTest(results, testId);
      if first.None? || NeedsRebuild(results[first.value].pdfPath, files) {
        return 400, link;
      }
      var t := Results.ShareAll(results, testId);
      Results.MarkSharedProperties(results, testId);
      results := t;
      link := ShareLink(tests[testId - 1]);
      status := 200;
    }
  }
}
