/** The result PDFs. For one result, `get_test_result_pdf` serves the
    stored file and rebuilds it only when no path is stored or the file is
    gone. For a whole test, `generate_test_results_pdf` builds a table with
    a header row and one row per result whose student exists, and stamps
    the new file's path on every result of the test. The renderer is a
    `Build` outcome: it either fails or leaves a file at the path it names;
    cells hold exact values where the document prints floats. */
module Report {
  import opened Text
  import opened Records
  import opened Results

  /** What the renderer did: wrote the file at `path`, or raised. */
  datatype Build = Built(path: string) | BuildFailed

  /** A cell of the results table. Marks and percentages are kept as the
      numbers `str(float)` and `:.2f` render. */
  datatype Cell = Label(text: string) | Marks(value: real) | Percent(value: real)

  const Header: seq<Cell> := [Label("Student Name"), Label("Admission Number"), Label("Phone"),
                              Label("Marks Obtained"), Label("Percentage")]

  /** `student.phone or 'N/A'` */
  function PhoneCell(phone: string): (r: string)
    ensures phone == "" ==> r == "N/A"
    ensures phone != "" ==> r == phone
  {
    if phone == "" then "N/A" else phone
  }

  /** `(marks / max_marks) * 100`; a zero maximum raises instead. */
  function Percentage(marks: real, maxMarks: int): (p: real)
    requires maxMarks != 0
    ensures p * (maxMarks as real) == marks * 100.0
  {
    marks / (maxMarks as real) * 100.0
  }

  function Row(s: Student, r: TestResult, maxMarks: int): (c: seq<Cell>)
    requires maxMarks != 0
    ensures |c| == |Header|
    ensures c[0] == Label(s.name) && c[1] == Label(s.admissionNumber)
    ensures s.phone == "" ==> c[2] == Label("N/A")
    ensures s.phone != "" ==> c[2] == Label(s.phone)
    ensures c[3] == Marks(r.marksObtained)
    ensures c[4].Percent? && c[4].value * (maxMarks as real) == r.marksObtained * 100.0
  {
    [Label(s.name), Label(s.admissionNumber), Label(PhoneCell(s.phone)),
     Marks(r.marksObtained), Percent(Percentage(r.marksObtained, maxMarks))]
  }

  predicate HasStudent(students: seq<Student>, r: TestResult)
  {
    1 <= r.studentId <= |students|
  }

  /** The table can be computed: no matched row divides by a zero
      maximum. Otherwise the loop raises `ZeroDivisionError`. */
  predicate Computable(results: seq<TestResult>, students: seq<Student>, maxMarks: int)
  {
    forall i :: 0 <= i < |results| && HasStudent(students, results[i]) ==> maxMarks != 0
  }

  /** The data rows, one per result whose student exists, in order. */
  function Rows(results: seq<TestResult>, students: seq<Student>, maxMarks: int): (rows: seq<seq<Cell>>)
    requires Computable(results, students, maxMarks)
    ensures |rows| <= |results|
    ensures forall k :: 0 <= k < |rows| ==> |rows[k]| == |Header|
  {
    if results == [] then []
    else
      var r := results[|results| - 1];
      var init := results[..|results| - 1];
      assert Computable(init, students, maxMarks) by {
        assert forall i :: 0 <= i < |init| ==> init[i] == results[i];
      }
      if HasStudent(students, r) then Rows(init, students, maxMarks) + [Row(students[r.studentId - 1], r, maxMarks)]
      else Rows(init, students, maxMarks)
  }

  /** The results whose student exists, in order. */
  function Known(results: seq<TestResult>, students: seq<Student>): (k: seq<TestResult>)
    ensures forall i :: 0 <= i < |k| ==> HasStudent(students, k[i])
    ensures |k| <= |results|
  {
    if results == [] then []
    else Known(results[..|results| - 1], students)
         + (if HasStudent(students, results[|results| - 1]) then [results[|results| - 1]] else [])
  }

  /** `Known` keeps exactly the results whose student exists. */
  lemma {:induction false} KnownMembers(results: seq<TestResult>, students: seq<Student>)
    ensures forall x :: x in Known(results, students) <==> x in results && HasStudent(students, x)
  {
    if results != [] {
      var init := results[..|results| - 1];
      var last := results[|results| - 1];
      KnownMembers(init, students);
      assert results == init + [last];
    }
  }

  /** The rows are exactly one per known result, in table order: row `k`
      shows the `k`-th known result's student and marks, and its
      percentage times the maximum is a hundred times the marks. */
  lemma {:induction false} RowsAreKnownResults(results: seq<TestResult>, students: seq<Student>, maxMarks: int)
    requires maxMarks != 0
    ensures |Rows(results, students, maxMarks)| == |Known(results, students)|
    ensures forall k :: 0 <= k < |Known(results, students)| ==>
              var r := Known(results, students)[k];
              Rows(results, students, maxMarks)[k] == Row(students[r.studentId - 1], r, maxMarks)
  {
    if results != [] {
      var init := results[..|results| - 1];
      var r := results[|results| - 1];
      RowsAreKnownResults(init, students, maxMarks);
      var rows, known := Rows(results, students, maxMarks), Known(results, students);
      var rows0, known0 := Rows(init, students, maxMarks), Known(init, students);
      if HasStudent(students, r) {
        assert rows == rows0 + [Row(students[r.studentId - 1], r, maxMarks)];
        assert known == known0 + [r];
        forall k | 0 <= k < |known|
          ensures rows[k] == Row(students[known[k].studentId - 1], known[k], maxMarks)
        {
          if k < |known0| {
            assert rows[k] == rows0[k] && known[k] == known0[k];
          }
        }
      } else {
        assert rows == rows0;
        assert known == known0;
      }
    }
  }

  /** With every student present there is one row per result. */
  lemma {:induction false} AllKnown(results: seq<TestResult>, students: seq<Student>)
    requires forall i :: 0 <= i < |results| ==> HasStudent(students, results[i])
    ensures Known(results, students) == results
  {
    if results != [] {
      var init := results[..|results| - 1];
      var last := results[|results| - 1];
      assert HasStudent(students, last);
      assert Known(results, students) == Known(init, students) + [last];
      AllKnown(init, students);
      assert init + [last] == results;
    }
  }

  /** The loop of `generate_test_results_pdf` that fills the table: the
      header, then a row per result whose student exists. It fails, as the
      division does, when such a row meets a zero maximum. */
  method BuildTable(results: seq<TestResult>, students: seq<Student>, maxMarks: int)
    returns (ok: bool, data: seq<seq<Cell>>)
    ensures ok <==> Computable(results, students, maxMarks)
    ensures ok ==> data == [Header] + Rows(results, students, maxMarks)
  {
    data := [Header];
    var i := 0;
    while i < |results|
      invariant 0 <= i <= |results|
      invariant Computable(results[..i], students, maxMarks)
      invariant data == [Header] + Rows(results[..i], students, maxMarks)
    {
      var r := results[i];
      assert results[..i + 1][..i] == results[..i];
      if 1 <= r.studentId <= |students| {
        var student := students[r.studentId - 1];
        if maxMarks == 0 {
          ok := false;
          assert !Computable(results, students, maxMarks) by {
            assert HasStudent(students, results[i]);
          }
          return;
        }
        data := data + [Row(student, r, maxMarks)];
      }
      i := i + 1;
    }
    assert results[..i] == results;
    ok := true;
  }

  /** `not pdf_path or not os.path.exists(pdf_path)` */
  predicate NeedsRebuild(pdfPath: string, files: set<string>)
    ensures !NeedsRebuild(pdfPath, files) ==> pdfPath != "" && pdfPath in files
  {
    pdfPath == "" || pdfPath !in files
  }

  /** What `get_test_result_pdf` does with a found result: the file it
      serves and whether it built it, or an error status. */
  datatype PdfOutcome = Served(path: string, rebuilt: bool) | PdfError(status: int)

  /** The decision of `get_test_result_pdf` for a found result. The stored
      file is served when it exists. Otherwise a new one is built, which
      needs the result's student (500 without it), a non-zero maximum
      (500 for the division) and a successful build (500). */
  function ResultPdf(r: TestResult, test: Option<Test>, student: Option<Student>,
                     files: set<string>, build: Build): (o: PdfOutcome)
    ensures o.Served? && !o.rebuilt ==> o.path == r.pdfPath && o.path in files
    ensures o.Served? && o.rebuilt ==> NeedsRebuild(r.pdfPath, files) && build == Built(o.path)
    ensures o.PdfError? ==> o.status == 500
  {
    if !NeedsRebuild(r.pdfPath, files) then Served(r.pdfPath, false)
    else if test.None? || student.None? || test.value.maxMarks == 0 then PdfError(500)
    else match build
      case BuildFailed => PdfError(500)
      case Built(path) => Served(path, true)
  }

  /** The cache rule: a rebuild happens exactly when no path is stored or
      its file is gone; a served file always exists once the request is
      over; without a rebuild the stored path is what is served. */
  lemma CacheRule(r: TestResult, test: Option<Test>, student: Option<Student>, files: set<string>, build: Build)
    ensures var o := ResultPdf(r, test, student, files, build);
            && (o.Served? && !o.rebuilt <==> !NeedsRebuild(r.pdfPath, files))
            && (o.Served? && o.rebuilt <==> NeedsRebuild(r.pdfPath, files) && test.Some? && student.Some?
                                            && test.value.maxMarks != 0 && build.Built?)
            && (o.Served? && !o.rebuilt ==> o.path == r.pdfPath && o.path in files)
            && (o.Served? && o.rebuilt ==> build == Built(o.path))
            && (o.PdfError? ==> o.status == 500 && NeedsRebuild(r.pdfPath, files))
  {
  }

  /** Once a file is built and its path stored, the next request serves
      it without building, whatever the renderer would do. */
  lemma SecondRequestCached(r: TestResult, test: Option<Test>, student: Option<Student>,
                            files: set<string>, build: Build, next: Build)
    requires ResultPdf(r, test, student, files, build).Served?
    requires ResultPdf(r, test, student, files, build).path != ""
    ensures var p := ResultPdf(r, test, student, files, build).path;
            ResultPdf(r.(pdfPath := p), test, student, files + {p}, next) == Served(p, false)
  {
  }

  /** After the group PDF is stamped on a test that has results, the share
      step's precondition holds: the test's first result names an existing
      file. */
  lemma StampMakesShareable(results: seq<TestResult>, testId: int, path: string, files: set<string>)
    requires OfTest(results, testId) != [] && path != "" && path in files
    ensures FirstOfTest(Stamp(results, testId, path), testId).Some?
    ensures !NeedsRebuild(Stamp(results, testId, path)[FirstOfTest(Stamp(results, testId, path), testId).value].pdfPath, files)
  {
    var x := OfTest(results, testId)[0];
    assert x in results;
    var i :| 0 <= i < |results| && results[i] == x;
    assert Stamp(results, testId, path)[i].testId == testId;
  }
}
