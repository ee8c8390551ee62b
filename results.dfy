/** The test-result table: the marks upsert of `add_test_results`, and the
    two bulk updates over all results of one test, stamping the group PDF
    path (`generate_test_results_pdf`) and marking them shared
    (`share_results_whatsapp`). */
module Results {
  import opened Text
  import opened Records

  /** One entry of the request's `results` list. */
  datatype Entry = Entry(studentId: int, marksObtained: real)

  predicate HasKey(r: TestResult, testId: int, studentId: int)
  {
    r.testId == testId && r.studentId == studentId
  }

  /** `TestResult.query.filter_by(test_id=.., student_id=..).first()`. */
  function Lookup(t: seq<TestResult>, testId: int, studentId: int): (r: Option<nat>)
    ensures r.Some? ==> r.value < |t| && HasKey(t[r.value], testId, studentId)
    ensures r.Some? ==> forall j :: 0 <= j < r.value ==> !HasKey(t[j], testId, studentId)
    ensures r.None? ==> forall j :: 0 <= j < |t| ==> !HasKey(t[j], testId, studentId)
  {
    if t == [] then None
    else if HasKey(t[0], testId, studentId) then Some(0)
    else match Lookup(t[1..], testId, studentId)
      case None => None
      case Some(i) => Some(i + 1)
  }

  /** The record a lookup of (test, student) finds. */
  function RecordAt(t: seq<TestResult>, testId: int, studentId: int): Option<TestResult>
  {
    match Lookup(t, testId, studentId)
    case Some(i) => Some(t[i])
    case None => None
  }

  /** One iteration of the handler's loop. */
  function Upsert(t: seq<TestResult>, testId: int, e: Entry): (r: seq<TestResult>)
    ensures |t| <= |r| <= |t| + 1
    ensures forall i :: 0 <= i < |t| ==> HasKey(r[i], t[i].testId, t[i].studentId)
    ensures |r| == |t| + 1 ==> r[|t|] == TestResult(testId, e.studentId, e.marksObtained, "", false)
  {
    match Lookup(t, testId, e.studentId)
    case Some(i) => t[i := t[i].(marksObtained := e.marksObtained)]
    case None => t + [TestResult(testId, e.studentId, e.marksObtained, "", false)]
  }

  /** The whole loop over the request's entries, first to last. */
  function UpsertAll(t: seq<TestResult>, testId: int, entries: seq<Entry>): (r: seq<TestResult>)
    ensures |t| <= |r| <= |t| + |entries|
  {
    if entries == [] then t
    else Upsert(UpsertAll(t, testId, entries[..|entries| - 1]), testId, entries[|entries| - 1])
  }

  /** The handler's loop: each entry in turn overwrites the marks of its
      student's result for the test, or appends a result. */
  method ApplyEntries(t: seq<TestResult>, testId: int, entries: seq<Entry>) returns (r: seq<TestResult>)
    ensures r == UpsertAll(t, testId, entries)
  {
    r := t;
    var i := 0;
    while i < |entries|
      invariant 0 <= i <= |entries|
      invariant r == UpsertAll(t, testId, entries[..i])
    {
      var e := entries[i];
      match Lookup(r, testId, e.studentId) {
        case Some(k) =>
          r := r[k := r[k].(marksObtained := e.marksObtained)];
        case None =>
          r := r + [TestResult(testId, e.studentId, e.marksObtained, "", false)];
      }
      assert entries[..i + 1][..i] == entries[..i];
      i := i + 1;
    }
    assert entries[..i] == entries;
  }

  /** The marks the last entry for `studentId` carries, if any entry does. */
  function LastMarks(entries: seq<Entry>, studentId: int): Option<real>
  {
    if entries == [] then None
    else if entries[|entries| - 1].studentId == studentId then Some(entries[|entries| - 1].marksObtained)
    else LastMarks(entries[..|entries| - 1], studentId)
  }

  /** The record (test, student) has after its marks are set to `marks`:
      the old record with new marks, or a fresh one without PDF. */
  function WithMarks(old_: Option<TestResult>, testId: int, studentId: int, marks: real): TestResult
  {
    match old_
    case Some(r) => r.(marksObtained := marks)
    case None => TestResult(testId, studentId, marks, "", false)
  }

  /** At most one result per (test, student). */
  predicate KeysUnique(t: seq<TestResult>)
  {
    forall i, j :: 0 <= i < j < |t| ==> !HasKey(t[j], t[i].testId, t[i].studentId)
  }

  lemma LookupIs(t: seq<TestResult>, testId: int, studentId: int, r: Option<nat>)
    requires r.Some? ==> r.value < |t| && HasKey(t[r.value], testId, studentId)
    requires r.Some? ==> forall j :: 0 <= j < r.value ==> !HasKey(t[j], testId, studentId)
    requires r.None? ==> forall j :: 0 <= j < |t| ==> !HasKey(t[j], testId, studentId)
    ensures Lookup(t, testId, studentId) == r
  {
  }

  lemma UpsertView(t: seq<TestResult>, testId: int, e: Entry, tid: int, sid: int)
    ensures RecordAt(Upsert(t, testId, e), tid, sid)
         == if tid == testId && sid == e.studentId then Some(WithMarks(RecordAt(t, tid, sid), tid, sid, e.marksObtained))
            else RecordAt(t, tid, sid)
  {
    var t' := Upsert(t, testId, e);
    match Lookup(t, testId, e.studentId)
    case Some(i) =>
      LookupIs(t', tid, sid, Lookup(t, tid, sid));
    case None =>
      if tid == testId && sid == e.studentId {
        LookupIs(t', tid, sid, Some(|t|));
      } else {
        LookupIs(t', tid, sid, Lookup(t, tid, sid));
      }
  }

  /** Re-submitting marks overwrites them: after the loop the record of each
      student the request names carries the last marks given for them and
      keeps its PDF path and shared flag; every other (test, student) record
      is as it was. */
  lemma {:induction false} UpsertAllView(t: seq<TestResult>, testId: int, entries: seq<Entry>, tid: int, sid: int)
    ensures RecordAt(UpsertAll(t, testId, entries), tid, sid)
         == if tid == testId && LastMarks(entries, sid).Some?
            then Some(WithMarks(RecordAt(t, tid, sid), tid, sid, LastMarks(entries, sid).value))
            else RecordAt(t, tid, sid)
  {
    if entries != [] {
      var init := entries[..|entries| - 1];
      UpsertAllView(t, testId, init, tid, sid);
      UpsertView(UpsertAll(t, testId, init), testId, entries[|entries| - 1], tid, sid);
    }
  }

  lemma UpsertKeepsUnique(t: seq<TestResult>, testId: int, e: Entry)
    requires KeysUnique(t)
    ensures KeysUnique(Upsert(t, testId, e))
  {
  }

  /** Re-submitting never creates a second record for a (test, student). */
  lemma {:induction false} UpsertAllKeepsUnique(t: seq<TestResult>, testId: int, entries: seq<Entry>)
    requires KeysUnique(t)
    ensures KeysUnique(UpsertAll(t, testId, entries))
  {
    if entries != [] {
      UpsertAllKeepsUnique(t, testId, entries[..|entries| - 1]);
      UpsertKeepsUnique(UpsertAll(t, testId, entries[..|entries| - 1]), testId, entries[|entries| - 1]);
    }
  }

  lemma UpsertFrame(t: seq<TestResult>, testId: int, e: Entry)
    ensures |Upsert(t, testId, e)| >= |t|
    ensures forall i :: 0 <= i < |t| && !HasKey(t[i], testId, e.studentId) ==> Upsert(t, testId, e)[i] == t[i]
    ensures forall i :: 0 <= i < |t| ==> HasKey(Upsert(t, testId, e)[i], t[i].testId, t[i].studentId)
    ensures forall i :: |t| <= i < |Upsert(t, testId, e)| ==> Upsert(t, testId, e)[i].testId == testId
  {
  }

  /** Results of other tests keep their position and content; appended
      results all belong to the test the request names. */
  lemma {:induction false} UpsertAllFrame(t: seq<TestResult>, testId: int, entries: seq<Entry>)
    ensures |UpsertAll(t, testId, entries)| >= |t|
    ensures forall i :: 0 <= i < |t| ==> HasKey(UpsertAll(t, testId, entries)[i], t[i].testId, t[i].studentId)
    ensures forall i :: 0 <= i < |t| && t[i].testId != testId ==> UpsertAll(t, testId, entries)[i] == t[i]
    ensures forall i :: |t| <= i < |UpsertAll(t, testId, entries)| ==> UpsertAll(t, testId, entries)[i].testId == testId
  {
    if entries != [] {
      var init := entries[..|entries| - 1];
      UpsertAllFrame(t, testId, init);
      UpsertFrame(UpsertAll(t, testId, init), testId, entries[|entries| - 1]);
    }
  }

  /** Whether a result belongs to the test. */
  function ForTest(testId: int): TestResult -> bool
  {
    (x: TestResult) => x.testId == testId
  }

  /** `TestResult.query.filter_by(test_id=..).all()`: the test's results
      in id order, each once. The `k`-th is the row at the `k`-th position
      of a result of the test, and those positions increase and cover
      every result of the test. */
  function OfTest(t: seq<TestResult>, testId: int): (r: seq<TestResult>)
    ensures forall x :: x in r <==> x in t && x.testId == testId
    ensures |r| == |Positions(t, ForTest(testId))|
    ensures forall k :: 0 <= k < |r| ==> r[k] == t[Positions(t, ForTest(testId))[k]] && r[k].testId == testId
  {
    Select(t, ForTest(testId))
  }

  /** `TestResult.query.filter_by(test_id=..).first()`: the position of the
      test's first result. */
  function FirstOfTest(t: seq<TestResult>, testId: int): (r: Option<nat>)
    ensures r.Some? ==> r.value < |t| && t[r.value].testId == testId
    ensures r.Some? ==> forall j :: 0 <= j < r.value ==> t[j].testId != testId
    ensures r.None? ==> forall j :: 0 <= j < |t| ==> t[j].testId != testId
  {
    if t == [] then None
    else if t[0].testId == testId then Some(0)
    else match FirstOfTest(t[1..], testId)
      case None => None
      case Some(i) => Some(i + 1)
  }

  /** Every result of `testId` gets `path` as its PDF path. */
  function Stamp(t: seq<TestResult>, testId: int, path: string): (r: seq<TestResult>)
    ensures |r| == |t|
    ensures forall i :: 0 <= i < |t| && t[i].testId == testId ==> r[i].pdfPath == path
    ensures forall i :: 0 <= i < |t| ==> r[i].(pdfPath := t[i].pdfPath) == t[i]
    ensures forall i :: 0 <= i < |t| && t[i].testId != testId ==> r[i] == t[i]
  {
    seq(|t|, i requires 0 <= i < |t| => if t[i].testId == testId then t[i].(pdfPath := path) else t[i])
  }

  /** Every result of `testId` is marked as shared. */
  function MarkShared(t: seq<TestResult>, testId: int): (r: seq<TestResult>)
    ensures |r| == |t|
    ensures forall i :: 0 <= i < |t| && t[i].testId == testId ==> r[i].sharedToWhatsapp
    ensures forall i :: 0 <= i < |t| ==> r[i].(sharedToWhatsapp := t[i].sharedToWhatsapp) == t[i]
    ensures forall i :: 0 <= i < |t| && t[i].testId != testId ==> r[i] == t[i]
  {
    seq(|t|, i requires 0 <= i < |t| => if t[i].testId == testId then t[i].(sharedToWhatsapp := true) else t[i])
  }

  /** The stamping loop of `generate_test_results_pdf`. */
  method StampPaths(t: seq<TestResult>, testId: int, path: string) returns (r: seq<TestResult>)
    ensures r == Stamp(t, testId, path)
  {
    r := t;
    var i := 0;
    while i < |r|
      invariant 0 <= i <= |r| && |r| == |t|
      invariant forall j :: 0 <= j < i ==> r[j] == Stamp(t, testId, path)[j]
      invariant forall j :: i <= j < |r| ==> r[j] == t[j]
    {
      if r[i].testId == testId {
        r := r[i := r[i].(pdfPath := path)];
      }
      i := i + 1;
    }
  }

  /** The sharing loop of `share_results_whatsapp`. */
  method ShareAll(t: seq<TestResult>, testId: int) returns (r: seq<TestResult>)
    ensures r == MarkShared(t, testId)
  {
    r := t;
    var i := 0;
    while i < |r|
      invariant 0 <= i <= |r| && |r| == |t|
      invariant forall j :: 0 <= j < i ==> r[j] == MarkShared(t, testId)[j]
      invariant forall j :: i <= j < |r| ==> r[j] == t[j]
    {
      if r[i].testId == testId {
        r := r[i := r[i].(sharedToWhatsapp := true)];
      }
      i := i + 1;
    }
  }

  /** Stamping keeps every result's key, so it keeps keys unique. */
  lemma StampKeepsKeys(t: seq<TestResult>, testId: int, path: string)
    ensures |Stamp(t, testId, path)| == |t|
    ensures forall i :: 0 <= i < |t| ==> HasKey(Stamp(t, testId, path)[i], t[i].testId, t[i].studentId)
    ensures KeysUnique(t) ==> KeysUnique(Stamp(t, testId, path))
  {
  }

  /** Stamping changes no key, no marks and no shared flag: the record a
      lookup finds is the old one, with the new path if it belongs to the
      stamped test. */
  lemma StampKeepsRecords(t: seq<TestResult>, testId: int, path: string, tid: int, sid: int)
    ensures var before := RecordAt(t, tid, sid);
            var after := RecordAt(Stamp(t, testId, path), tid, sid);
            before.Some? == after.Some?
            && (before.Some? ==> after.value == if tid == testId then before.value.(pdfPath := path) else before.value)
  {
    LookupIs(Stamp(t, testId, path), tid, sid, Lookup(t, tid, sid));
  }

  /** Sharing changes nothing but the shared flags of one test's results,
      and sharing twice is sharing once. */
  lemma MarkSharedProperties(t: seq<TestResult>, testId: int)
    ensures |MarkShared(t, testId)| == |t|
    ensures forall i :: 0 <= i < |t| && t[i].testId == testId ==> MarkShared(t, testId)[i].sharedToWhatsapp
    ensures forall i :: 0 <= i < |t| ==> MarkShared(t, testId)[i].(sharedToWhatsapp := t[i].sharedToWhatsapp) == t[i]
    ensures forall i :: 0 <= i < |t| && t[i].testId != testId ==> MarkShared(t, testId)[i] == t[i]
    ensures MarkShared(MarkShared(t, testId), testId) == MarkShared(t, testId)
  {
  }
}
