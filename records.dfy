/** The rows of the five tables the handlers work on. A row's id is its
    position in its table plus one: rows are only ever appended, so the
    database's next row id is always the table's length plus one. Nullable
    text columns (phone, pdf path, selected class) hold "" for NULL, since
    every handler tests them with `not value`, which treats both alike. */
module Records {
  import opened Text
  import opened Dates

  datatype Admin = Admin(username: string, password: string, selectedClass: string)

  datatype Student = Student(
    admissionNumber: string,
    username: string,
    password: string,
    name: string,
    email: string,
    phone: string,
    schoolName: string,
    classLevel: string,
    admissionDate: Date)

  datatype AttendanceRecord = AttendanceRecord(studentId: int, date: Date, present: bool)

  datatype Test = Test(name: string, subject: string, classLevel: string, date: Date, maxMarks: int)

  /** `marksObtained` is a float column in the database; here it is exact. */
  datatype TestResult = TestResult(
    testId: int,
    studentId: int,
    marksObtained: real,
    pdfPath: string,
    sharedToWhatsapp: bool)

  /** The payload of a session token as the decoder returns it: the ids
      under the keys `admin_id` and `student_id`, when present. */
  datatype Claims = Claims(adminId: Option<int>, studentId: Option<int>)

  /** The positions of the rows `keep` accepts, in table order:
      `filter_by(..).all()`, which returns the matching rows by ascending
      id. Every position is a matching row, the positions increase (so no
      row comes twice), and every matching row is among them. */
  function Positions<T>(t: seq<T>, keep: T -> bool): (ps: seq<nat>)
    ensures forall k :: 0 <= k < |ps| ==> ps[k] < |t| && keep(t[ps[k]])
    ensures forall k, l :: 0 <= k < l < |ps| ==> ps[k] < ps[l]
    ensures forall i :: 0 <= i < |t| && keep(t[i]) ==> i in ps
  {
    if t == [] then []
    else
      var init := Positions(t[..|t| - 1], keep);
      assert forall i :: 0 <= i < |t| - 1 ==> t[..|t| - 1][i] == t[i];
      init + (if keep(t[|t| - 1]) then [|t| - 1] else [])
  }

  /** The rows `keep` accepts, in table order: the `k`-th is the row at
      the `k`-th matching position. */
  function Select<T(!new)>(t: seq<T>, keep: T -> bool): (r: seq<T>)
    ensures |r| == |Positions(t, keep)|
    ensures forall k :: 0 <= k < |r| ==> r[k] == t[Positions(t, keep)[k]]
    ensures forall x :: x in r <==> x in t && keep(x)
  {
    var ps := Positions(t, keep);
    var r := seq(|ps|, k requires 0 <= k < |ps| => t[ps[k]]);
    assert forall x :: x in t && keep(x) ==> x in r by {
      forall x | x in t && keep(x) ensures x in r {
        var i :| 0 <= i < |t| && t[i] == x;
        var k :| 0 <= k < |ps| && ps[k] == i;
        assert r[k] == x;
      }
    }
    r
  }

  /** The loop of a listing handler: one entry per queried row, in query
      order, carrying the row's id and its record. */
  method Listing<T>(t: seq<T>, ps: seq<nat>) returns (list: seq<(int, T)>)
    requires forall k :: 0 <= k < |ps| ==> ps[k] < |t|
    ensures |list| == |ps|
    ensures forall k :: 0 <= k < |list| ==> list[k] == (ps[k] + 1, t[ps[k]])
  {
    list := [];
    var k := 0;
    while k < |ps|
      invariant 0 <= k <= |ps| && |list| == k
      invariant forall j :: 0 <= j < k ==> list[j] == (ps[j] + 1, t[ps[j]])
    {
      list := list + [(ps[k] + 1, t[ps[k]])];
      k := k + 1;
    }
  }

  /** `Model.query.get(id)` on a table whose row ids are 1, 2, ... */
  function Get<T>(table: seq<T>, id: int): (r: Option<T>)
    ensures r.Some? <==> 1 <= id <= |table|
    ensures r.Some? ==> r.value == table[id - 1]
  {
    if 1 <= id <= |table| then Some(table[id - 1]) else None
  }
}
