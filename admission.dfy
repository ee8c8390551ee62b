/** Admission-number allocation of `add_student`: the number is "PCC", the
    class level and a counter of at least five digits; the counter is read
    back out of the newest student of the same class by splitting its
    admission number on the class level and parsing the second piece. */
module Admission {
  import opened Text
  import opened Records

  /** `f"PCC{class_level}{n:05d}"` */
  function AdmissionNumber(classLevel: string, n: int): (s: string)
    ensures |s| >= |classLevel| + 8
    ensures s[..3] == "PCC" && s[3..3 + |classLevel|] == classLevel
    ensures 0 <= n ==> AllDigits(s[3 + |classLevel|..])
  {
    var s := "PCC" + classLevel + FormatPadded(n, 5);
    assert s[3 + |classLevel|..] == FormatPadded(n, 5);
    if 0 <= n then PaddedShape(n, 5); s else s
  }

  /** The newest student of the class: `filter_by(class_level=..)
      .order_by(Student.id.desc()).first()`, as a position in the table. */
  function LastOfClass(students: seq<Student>, classLevel: string): (r: Option<nat>)
    ensures r.Some? ==> r.value < |students| && students[r.value].classLevel == classLevel
    ensures r.Some? ==> forall j :: r.value < j < |students| ==> students[j].classLevel != classLevel
    ensures r.None? ==> forall j :: 0 <= j < |students| ==> students[j].classLevel != classLevel
  {
    if students == [] then None
    else if students[|students| - 1].classLevel == classLevel then Some(|students| - 1)
    else LastOfClass(students[..|students| - 1], classLevel)
  }

  /** The counter an admission number carries: `int(number.split(class_level)[1])`.
      `None` stands for the `IndexError` (the class level does not occur in
      the number) or the `ValueError` (the second piece is not an integer)
      that the handler lets escape. */
  function CounterOf(number: string, classLevel: string): (r: Option<int>)
    requires |classLevel| > 0
    ensures (forall j :: !OccursAt(number, classLevel, j)) ==> r.None?
  {
    match SplitSecond(number, classLevel)
    case None => None
    case Some(piece) => ParseInt(piece)
  }

  /** The counter the next student of the class gets: one more than the
      newest same-class student's, or 1 for a class with no students. The
      handler has already refused an empty class level. */
  function NextNumber(students: seq<Student>, classLevel: string): (r: Option<int>)
    requires |classLevel| > 0
    ensures LastOfClass(students, classLevel).None? ==> r == Some(1)
    ensures LastOfClass(students, classLevel).Some? ==>
              r.Some? == CounterOf(students[LastOfClass(students, classLevel).value].admissionNumber, classLevel).Some?
    ensures (LastOfClass(students, classLevel).Some? && r.Some?) ==>
              r.value == CounterOf(students[LastOfClass(students, classLevel).value].admissionNumber, classLevel).value + 1
  {
    match LastOfClass(students, classLevel)
    case None => Some(1)
    case Some(i) =>
      match CounterOf(students[i].admissionNumber, classLevel)
      case None => None
      case Some(v) => Some(v + 1)
  }

  /** A character that can appear neither in "PCC" nor among the digits. */
  predicate Marker(c: char)
  {
    !IsDigit(c) && c != 'P' && c != 'C'
  }

  /** The class level has a character outside "PCC" and the digits, as
      "7th" .. "12th" all do. */
  predicate HasMarker(classLevel: string)
  {
    exists i :: 0 <= i < |classLevel| && Marker(classLevel[i])
  }

  function FirstMarker(s: string): (m: nat)
    requires exists i :: 0 <= i < |s| && Marker(s[i])
    ensures m < |s| && Marker(s[m])
    ensures forall k :: 0 <= k < m ==> !Marker(s[k])
  {
    if Marker(s[0]) then 0
    else
      assert exists i :: 0 <= i < |s[1..]| && Marker(s[1..][i]) by {
        var i :| 0 <= i < |s| && Marker(s[i]);
        assert s[1..][i - 1] == s[i];
      }
      FirstMarker(s[1..]) + 1
  }

  /** With a marker in the class level, the class level occurs in a
      generated number exactly once, right after "PCC". */
  lemma OccurrencesInNumber(classLevel: string, digits: string)
    requires HasMarker(classLevel) && AllDigits(digits)
    ensures var s := "PCC" + classLevel + digits;
            && OccursAt(s, classLevel, 3)
            && (forall j :: 0 <= j < 3 ==> !OccursAt(s, classLevel, j))
            && (forall j :: 3 + |classLevel| <= j ==> !OccursAt(s, classLevel, j))
  {
    var s := "PCC" + classLevel + digits;
    var m := FirstMarker(classLevel);
    assert s[3..3 + |classLevel|] == classLevel;
    forall j: nat | j < 3
      ensures !OccursAt(s, classLevel, j)
    {
      if j + m >= 3 {
        assert s[j + m] == classLevel[j + m - 3];
      }
      Mismatch(s, classLevel, j, m);
    }
    forall j: nat | 3 + |classLevel| <= j
      ensures !OccursAt(s, classLevel, j)
    {
      if j + m < |s| {
        assert s[j + m] == digits[j + m - 3 - |classLevel|];
        Mismatch(s, classLevel, j, m);
      }
    }
  }

  /** `number.split(class_level)[1]` recovers the padded counter of a
      generated number whose class level has a marker. */
  lemma SplitNumber(classLevel: string, n: nat)
    requires HasMarker(classLevel)
    ensures SplitSecond(AdmissionNumber(classLevel, n), classLevel) == Some(FormatPadded(n, 5))
  {
    var digits := FormatPadded(n, 5);
    PaddedShape(n, 5);
    var s := AdmissionNumber(classLevel, n);
    OccurrencesInNumber(classLevel, digits);
    assert FindFrom(s, classLevel, 0) == Some(3);
    assert FindFrom(s, classLevel, 3 + |classLevel|).None?;
    assert s[3 + |classLevel|..] == digits;
  }

  /** The counter is read back out of every number generated for a class
      level with a marker. */
  lemma CounterOfNumber(classLevel: string, n: nat)
    requires HasMarker(classLevel)
    ensures CounterOf(AdmissionNumber(classLevel, n), classLevel) == Some(n)
  {
    SplitNumber(classLevel, n);
    ParsePadded(n, 5);
  }

  /** A class with no students starts at counter 1. */
  lemma FirstOfClass(students: seq<Student>, classLevel: string)
    requires |classLevel| > 0
    requires forall j :: 0 <= j < |students| ==> students[j].classLevel != classLevel
    ensures NextNumber(students, classLevel) == Some(1)
    ensures AdmissionNumber(classLevel, 1) == "PCC" + classLevel + "00001"
  {
    assert NatDigits(1) == "1";
    assert Zeros(4) == "0000";
  }

  /** The number after a generated one: if the newest student of the class
      carries counter `n`, the next student gets `n + 1`. */
  lemma NextAfterLast(students: seq<Student>, classLevel: string, n: nat)
    requires HasMarker(classLevel)
    requires LastOfClass(students, classLevel).Some?
    requires students[LastOfClass(students, classLevel).value].admissionNumber == AdmissionNumber(classLevel, n)
    ensures NextNumber(students, classLevel) == Some(n + 1)
  {
    CounterOfNumber(classLevel, n);
    NextFromCounter(students, classLevel, n);
  }

  /** The next counter is one more than the newest same-class student's. */
  lemma NextFromCounter(students: seq<Student>, classLevel: string, v: int)
    requires |classLevel| > 0
    requires LastOfClass(students, classLevel).Some?
    requires CounterOf(students[LastOfClass(students, classLevel).value].admissionNumber, classLevel) == Some(v)
    ensures NextNumber(students, classLevel) == Some(v + 1)
  {
  }

  /** Adding a student of class `classLevel` with counter `n` makes
      `n + 1` that class's next counter. */
  lemma AppendSameClass(students: seq<Student>, s: Student, n: nat)
    requires HasMarker(s.classLevel)
    requires s.admissionNumber == AdmissionNumber(s.classLevel, n)
    ensures NextNumber(students + [s], s.classLevel) == Some(n + 1)
  {
    var t := students + [s];
    assert LastOfClass(t, s.classLevel) == Some(|students|);
    NextAfterLast(t, s.classLevel, n);
  }

  /** Allocation is per class: adding a student leaves every other
      class's next counter as it was. */
  lemma AppendOtherClass(students: seq<Student>, s: Student, other: string)
    requires |other| > 0 && s.classLevel != other
    ensures NextNumber(students + [s], other) == NextNumber(students, other)
  {
    var t := students + [s];
    assert t[..|t| - 1] == students;
    assert LastOfClass(t, other) == LastOfClass(students, other);
    match LastOfClass(students, other)
    case None =>
    case Some(i) => assert t[i] == students[i];
  }

  lemma ClassOneNumber()
    ensures AdmissionNumber("1", 1) == "PCC100001"
  {
    assert NatDigits(1) == "1";
    assert Zeros(4) == "0000";
  }

  lemma ClassOneSplit()
    ensures SplitSecond("PCC100001", "1") == Some("0000")
  {
    var a := "PCC100001";
    assert a[3..4] == "1";
    Mismatch(a, "1", 0, 0);
    Mismatch(a, "1", 1, 0);
    Mismatch(a, "1", 2, 0);
    assert FindFrom(a, "1", 0) == Some(3);
    assert a[8..9] == "1";
    Mismatch(a, "1", 4, 0);
    Mismatch(a, "1", 5, 0);
    Mismatch(a, "1", 6, 0);
    Mismatch(a, "1", 7, 0);
    assert FindFrom(a, "1", 4) == Some(8);
    assert a[4..8] == "0000";
  }

  /** As written, a class level with no marker can break the counter: in
      class "1" the first number is "PCC100001", splitting it on "1" gives
      "PCC", "0000" and "", so the second student is given "PCC100001"
      again and the unique admission number makes the insert fail. */
  lemma ClassOneRepeats(s: Student)
    requires s.classLevel == "1" && s.admissionNumber == AdmissionNumber("1", 1)
    ensures AdmissionNumber("1", 1) == "PCC100001"
    ensures NextNumber([s], "1") == Some(1)
  {
    ClassOneNumber();
    ClassOneSplit();
    ZerosValue(4);
    ParseDigits(Zeros(4));
    assert Zeros(4) == "0000";
    assert ParseInt("0000") == Some(0);
    assert SplitSecond(s.admissionNumber, "1") == Some("0000");
    assert LastOfClass([s], "1") == Some(0);
  }
}
