/** The attendance upsert of `mark_attendance`: for each entry of the
    request, the record for (student, date) is found and its `present`
    flag overwritten, or a new record is appended. Entries are applied in
    order; the session flushes pending rows before each lookup, so a later
    entry for the same student finds the record an earlier one created. */
module Attendance {
  import opened Text
  import opened Dates
  import opened Records

  /** One entry of the request's `attendance` list; `present` is `None`
      when the entry has no `present` key. */
  datatype Mark = Mark(studentId: int, present: Option<bool>)

  /** `item.get('present', False)` */
  function PresentOf(m: Mark): (b: bool)
    ensures b <==> m.present == Some(true)
  {
    if m.present.Some? then m.present.value else false
  }

  predicate HasKey(r: AttendanceRecord, studentId: int, date: Date)
  {
    r.studentId == studentId && r.date == date
  }

  /** `Attendance.query.filter_by(student_id=.., date=..).first()`: the
      position of the first record with that key. */
  function Lookup(t: seq<AttendanceRecord>, studentId: int, date: Date): (r: Option<nat>)
    ensures r.Some? ==> r.value < |t| && HasKey(t[r.value], studentId, date)
    ensures r.Some? ==> forall j :: 0 <= j < r.value ==> !HasKey(t[j], studentId, date)
    ensures r.None? ==> forall j :: 0 <= j < |t| ==> !HasKey(t[j], studentId, date)
  {
    if t == [] then None
    else if HasKey(t[0], studentId, date) then Some(0)
    else match Lookup(t[1..], studentId, date)
      case None => None
      case Some(i) => Some(i + 1)
  }

  /** What the table records for (student, date): the flag of the record a
      lookup finds, if there is one. */
  function PresentAt(t: seq<AttendanceRecord>, studentId: int, date: Date): Option<bool>
  {
    match Lookup(t, studentId, date)
    case Some(i) => Some(t[i].present)
    case None => None
  }

  /** One iteration of the handler's loop. */
  function Upsert(t: seq<AttendanceRecord>, date: Date, m: Mark): (r: seq<AttendanceRecord>)
    ensures |t| <= |r| <= |t| + 1
    ensures forall i :: 0 <= i < |t| ==> HasKey(r[i], t[i].studentId, t[i].date)
    ensures |r| == |t| + 1 ==> r[|t|] == AttendanceRecord(m.studentId, date, PresentOf(m))
  {
    match Lookup(t, m.studentId, date)
    case Some(i) => t[i := t[i].(present := PresentOf(m))]
    case None => t + [AttendanceRecord(m.studentId, date, PresentOf(m))]
  }

  /** The whole loop over the request's entries, first to last. */
  function UpsertAll(t: seq<AttendanceRecord>, date: Date, marks: seq<Mark>): (r: seq<AttendanceRecord>)
    ensures |t| <= |r| <= |t| + |marks|
  {
    if marks == [] then t
    else Upsert(UpsertAll(t, date, marks[..|marks| - 1]), date, marks[|marks| - 1])
  }

  /** The flag the last entry for `studentId` carries, if any entry does. */
  function LastMark(marks: seq<Mark>, studentId: int): Option<bool>
  {
    if marks == [] then None
    else if marks[|marks| - 1].studentId == studentId then Some(PresentOf(marks[|marks| - 1]))
    else LastMark(marks[..|marks| - 1], studentId)
  }

  /** The handler's loop: each entry in turn updates the record of its
      student on that date, or appends one. */
  method ApplyMarks(t: seq<AttendanceRecord>, date: Date, marks: seq<Mark>) returns (r: seq<AttendanceRecord>)
    ensures r == UpsertAll(t, date, marks)
  {
    r := t;
    var i := 0;
    while i < |marks|
      invariant 0 <= i <= |marks|
      invariant r == UpsertAll(t, date, marks[..i])
    {
      var m := marks[i];
      match Lookup(r, m.studentId, date) {
        case Some(k) =>
          r := r[k := r[k].(present := PresentOf(m))];
        case None =>
          r := r + [AttendanceRecord(m.studentId, date, PresentOf(m))];
      }
      assert marks[..i + 1][..i] == marks[..i];
      i := i + 1;
    }
    assert marks[..i] == marks;
  }

  /** At most one record per (student, date). */
  predicate KeysUnique(t: seq<AttendanceRecord>)
  {
    forall i, j :: 0 <= i < j < |t| ==> !HasKey(t[j], t[i].studentId, t[i].date)
  }

  function CountKey(t: seq<AttendanceRecord>, studentId: int, date: Date): nat
  {
    if t == [] then 0
    else (if HasKey(t[0], studentId, date) then 1 else 0) + CountKey(t[1..], studentId, date)
  }

  /** The lookup result is fixed by "first record with that key". */
  lemma LookupIs(t: seq<AttendanceRecord>, studentId: int, date: Date, r: Option<nat>)
    requires r.Some? ==> r.value < |t| && HasKey(t[r.value], studentId, date)
    requires r.Some? ==> forall j :: 0 <= j < r.value ==> !HasKey(t[j], studentId, date)
    requires r.None? ==> forall j :: 0 <= j < |t| ==> !HasKey(t[j], studentId, date)
    ensures Lookup(t, studentId, date) == r
  {
  }

  /** One upsert sets the flag of its own key and leaves every other key's
      flag as it was. */
  lemma UpsertView(t: seq<AttendanceRecord>, date: Date, m: Mark, studentId: int, d: Date)
    ensures PresentAt(Upsert(t, date, m), studentId, d)
         == if studentId == m.studentId && d == date then Some(PresentOf(m)) else PresentAt(t, studentId, d)
  {
    var t' := Upsert(t, date, m);
    match Lookup(t, m.studentId, date)
    case Some(i) =>
      LookupIs(t', studentId, d, Lookup(t, studentId, d));
    case None =>
      if studentId == m.studentId && d == date {
        LookupIs(t', studentId, d, Some(|t|));
      } else {
        LookupIs(t', studentId, d, Lookup(t, studentId, d));
      }
  }

  /** After the loop, each student named in the request has the flag of
      the last entry naming them on that date; every other (student, date)
      keeps the flag it had. */
  lemma {:induction false} UpsertAllView(t: seq<AttendanceRecord>, date: Date, marks: seq<Mark>, studentId: int, d: Date)
    ensures PresentAt(UpsertAll(t, date, marks), studentId, d)
         == if d == date && LastMark(marks, studentId).Some? then LastMark(marks, studentId)
            else PresentAt(t, studentId, d)
  {
    if marks != [] {
      var init := marks[..|marks| - 1];
      UpsertAllView(t, date, init, studentId, d);
      UpsertView(UpsertAll(t, date, init), date, marks[|marks| - 1], studentId, d);
    }
  }

  lemma UpsertKeepsUnique(t: seq<AttendanceRecord>, date: Date, m: Mark)
    requires KeysUnique(t)
    ensures KeysUnique(Upsert(t, date, m))
  {
  }

  /** The loop never creates a second record for a key. */
  lemma {:induction false} UpsertAllKeepsUnique(t: seq<AttendanceRecord>, date: Date, marks: seq<Mark>)
    requires KeysUnique(t)
    ensures KeysUnique(UpsertAll(t, date, marks))
  {
    if marks != [] {
      UpsertAllKeepsUnique(t, date, marks[..|marks| - 1]);
      UpsertKeepsUnique(UpsertAll(t, date, marks[..|marks| - 1]), date, marks[|marks| - 1]);
    }
  }

  /** With one record per key, a key that the table knows has exactly one
      record and one it does not know has none. */
  lemma {:induction false} UniqueCount(t: seq<AttendanceRecord>, studentId: int, date: Date)
    requires KeysUnique(t)
    ensures CountKey(t, studentId, date) == if PresentAt(t, studentId, date).Some? then 1 else 0
  {
    if t != [] {
      assert KeysUnique(t[1..]);
      UniqueCount(t[1..], studentId, date);
      if HasKey(t[0], studentId, date) {
        assert Lookup(t[1..], studentId, date).None? by {
          forall j | 0 <= j < |t[1..]| ensures !HasKey(t[1..][j], studentId, date) {
            assert t[1..][j] == t[j + 1];
          }
        }
      }
    }
  }

  lemma UpsertFrame(t: seq<AttendanceRecord>, date: Date, m: Mark)
    ensures |Upsert(t, date, m)| >= |t|
    ensures forall i :: 0 <= i < |t| ==> HasKey(Upsert(t, date, m)[i], t[i].studentId, t[i].date)
    ensures forall i :: 0 <= i < |t| && !HasKey(t[i], m.studentId, date) ==> Upsert(t, date, m)[i] == t[i]
    ensures forall i :: |t| <= i < |Upsert(t, date, m)| ==> HasKey(Upsert(t, date, m)[i], m.studentId, date)
  {
  }

  /** Existing records keep their position and key; a record whose key no
      entry names is untouched; every appended record belongs to a student
      the request names, on the request's date. */
  lemma {:induction false} UpsertAllFrame(t: seq<AttendanceRecord>, date: Date, marks: seq<Mark>)
    ensures |UpsertAll(t, date, marks)| >= |t|
    ensures forall i :: 0 <= i < |t| ==> HasKey(UpsertAll(t, date, marks)[i], t[i].studentId, t[i].date)
    ensures forall i :: 0 <= i < |t| && (t[i].date != date || LastMark(marks, t[i].studentId).None?)
                     ==> UpsertAll(t, date, marks)[i] == t[i]
    ensures forall i :: |t| <= i < |UpsertAll(t, date, marks)|
                     ==> UpsertAll(t, date, marks)[i].date == date
                         && LastMark(marks, UpsertAll(t, date, marks)[i].studentId).Some?
  {
    if marks != [] {
      var init := marks[..|marks| - 1];
      var m := marks[|marks| - 1];
      var mid := UpsertAll(t, date, init);
      UpsertAllFrame(t, date, init);
      UpsertFrame(mid, date, m);
      var t' := UpsertAll(t, date, marks);
      forall i | 0 <= i < |t| && (t[i].date != date || LastMark(marks, t[i].studentId).None?)
        ensures t'[i] == t[i]
      {
        assert LastMark(marks, t[i].studentId).None? ==> LastMark(init, t[i].studentId).None?;
      }
    }
  }

  /** Marking a student present and then absent on the same date leaves
      exactly one record for them on that date, and it says absent. */
  lemma PresentThenAbsent(t: seq<AttendanceRecord>, date: Date, studentId: int)
    requires KeysUnique(t)
    ensures var once := UpsertAll(t, date, [Mark(studentId, Some(true))]);
            var twice := UpsertAll(once, date, [Mark(studentId, Some(false))]);
            CountKey(twice, studentId, date) == 1 && PresentAt(twice, studentId, date) == Some(false)
  {
    var once := UpsertAll(t, date, [Mark(studentId, Some(true))]);
    var twice := UpsertAll(once, date, [Mark(studentId, Some(false))]);
    UpsertAllKeepsUnique(t, date, [Mark(studentId, Some(true))]);
    UpsertAllKeepsUnique(once, date, [Mark(studentId, Some(false))]);
    UpsertAllView(once, date, [Mark(studentId, Some(false))], studentId, date);
    UniqueCount(twice, studentId, date);
  }
}
