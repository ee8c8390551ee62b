/** Credentials: the username and password `add_student` derives from a
    student's name, and the two login checks that issue session tokens. */
module Credentials {
  import opened Text
  import opened Records
  import opened Admission

  predicate IsUpper(c: char) { 'A' <= c <= 'Z' }

  /** One character of `name.lower().replace(' ', '_')`. */
  function UsernameChar(c: char): char
  {
    if IsUpper(c) then (c as int + 32) as char
    else if c == ' ' then '_'
    else c
  }

  /** `name.lower().replace(' ', '_')`. */
  function Username(name: string): (u: string)
    ensures |u| == |name|
    ensures forall i :: 0 <= i < |u| ==> u[i] == UsernameChar(name[i])
  {
    seq(|name|, i requires 0 <= i < |name| => UsernameChar(name[i]))
  }

  /** `f"{username}123"`: the password the student is given and the one
      student login expects. */
  function Password(username: string): (p: string)
    ensures |p| == |username| + 3 && p[..|username|] == username && p[|username|..] == "123"
  {
    username + "123"
  }

  /** The shape of every generated username: no upper-case letter, no
      space. */
  predicate Lowered(u: string)
  {
    forall i :: 0 <= i < |u| ==> !IsUpper(u[i]) && u[i] != ' '
  }

  /** A generated username is `Lowered`, deriving it again changes
      nothing, and a `Lowered` text is its own username. */
  lemma UsernameShape(name: string)
    ensures Lowered(Username(name))
    ensures Lowered(name) ==> Username(name) == name
    ensures Username(Username(name)) == Username(name)
  {
  }

  /** Names that differ only in letter case or in spaces against
      underscores get the same username, so the unique username column
      refuses the second of them. */
  lemma SameUsername()
    ensures Username("Anu Das") == Username("anu_das") == "anu_das"
  {
  }

  /** A generated username never equals an admission number, which starts
      with the upper-case "PCC"; so the admission-number fallback of
      student login can never be shadowed by another student's username. */
  lemma UsernameIsNoAdmissionNumber(u: string, classLevel: string, n: int)
    requires Lowered(u)
    ensures u != AdmissionNumber(classLevel, n)
  {
    if |u| > 0 {
      assert AdmissionNumber(classLevel, n)[0] == 'P';
    }
  }

  /** What a login request ends in: a token carrying `Claims`, or an error
      status. */
  datatype LoginOutcome = Issued(claims: Claims) | Refused(status: int)

  /** `Admin.query.filter_by(username=..).first()`. */
  function FindAdmin(admins: seq<Admin>, username: string): (r: Option<nat>)
    ensures r.Some? ==> r.value < |admins| && admins[r.value].username == username
    ensures r.Some? ==> forall j :: 0 <= j < r.value ==> admins[j].username != username
    ensures r.None? ==> forall j :: 0 <= j < |admins| ==> admins[j].username != username
  {
    if admins == [] then None
    else if admins[0].username == username then Some(0)
    else match FindAdmin(admins[1..], username)
      case None => None
      case Some(i) => Some(i + 1)
  }

  /** `admin_login`: the admin with that username whose stored password is
      the one given gets a token with its id; anyone else gets 401. A
      missing field matches no admin. */
  function AdminLogin(admins: seq<Admin>, username: Option<string>, password: Option<string>): (r: LoginOutcome)
    ensures r.Issued? ==>
              && username.Some? && password.Some?
              && r.claims.studentId.None? && r.claims.adminId.Some?
              && 1 <= r.claims.adminId.value <= |admins|
              && admins[r.claims.adminId.value - 1].username == username.value
              && admins[r.claims.adminId.value - 1].password == password.value
    ensures r.Refused? ==> r.status == 401
  {
    if username.None? || password.None? then Refused(401)
    else match FindAdmin(admins, username.value)
      case Some(i) =>
        if admins[i].password == password.value then Issued(Claims(Some(i + 1), None)) else Refused(401)
      case None => Refused(401)
  }

  lemma AdminLoginIff(admins: seq<Admin>, username: Option<string>, password: Option<string>)
    ensures AdminLogin(admins, username, password).Issued?
        <==> username.Some? && password.Some? && FindAdmin(admins, username.value).Some?
             && admins[FindAdmin(admins, username.value).value].password == password.value
    ensures AdminLogin(admins, username, password).Issued?
        ==> AdminLogin(admins, username, password).claims
            == Claims(Some(FindAdmin(admins, username.value).value + 1), None)
    ensures AdminLogin(admins, username, password).Refused? ==> AdminLogin(admins, username, password).status == 401
  {
  }

  function FindByUsername(students: seq<Student>, username: string): (r: Option<nat>)
    ensures r.Some? ==> r.value < |students| && students[r.value].username == username
    ensures r.Some? ==> forall j :: 0 <= j < r.value ==> students[j].username != username
    ensures r.None? ==> forall j :: 0 <= j < |students| ==> students[j].username != username
  {
    if students == [] then None
    else if students[0].username == username then Some(0)
    else match FindByUsername(students[1..], username)
      case None => None
      case Some(i) => Some(i + 1)
  }

  function FindByAdmissionNumber(students: seq<Student>, number: string): (r: Option<nat>)
    ensures r.Some? ==> r.value < |students| && students[r.value].admissionNumber == number
    ensures r.Some? ==> forall j :: 0 <= j < r.value ==> students[j].admissionNumber != number
    ensures r.None? ==> forall j :: 0 <= j < |students| ==> students[j].admissionNumber != number
  {
    if students == [] then None
    else if students[0].admissionNumber == number then Some(0)
    else match FindByAdmissionNumber(students[1..], number)
      case None => None
      case Some(i) => Some(i + 1)
  }

  /** The student a login name designates: by username, else by admission
      number. */
  function FindStudent(students: seq<Student>, login: string): (r: Option<nat>)
    ensures r.Some? ==> r.value < |students|
                        && (students[r.value].username == login || students[r.value].admissionNumber == login)
    ensures r.Some? && students[r.value].username != login ==>
              forall j :: 0 <= j < |students| ==> students[j].username != login
    ensures r.None? ==>
              forall j :: 0 <= j < |students| ==> students[j].username != login && students[j].admissionNumber != login
  {
    match FindByUsername(students, login)
    case Some(i) => Some(i)
    case None => FindByAdmissionNumber(students, login)
  }

  /** `student_login`. A missing or empty field is 400; the password is
      compared with the found student's username followed by "123" (the
      stored password plays no part); a mismatch or an unknown login name
      is 401. */
  function StudentLogin(students: seq<Student>, username: Option<string>, password: Option<string>): (r: LoginOutcome)
    ensures r.Issued? ==>
              && username.Some? && password.Some?
              && r.claims.adminId.None? && r.claims.studentId.Some?
              && 1 <= r.claims.studentId.value <= |students|
              && (|| students[r.claims.studentId.value - 1].username == username.value
                  || students[r.claims.studentId.value - 1].admissionNumber == username.value)
    ensures r.Refused? ==> r.status == 400 || r.status == 401
  {
    if username.None? || username.value == "" || password.None? || password.value == "" then Refused(400)
    else match FindStudent(students, username.value)
      case None => Refused(401)
      case Some(i) =>
        if password.value == Password(students[i].username) then Issued(Claims(None, Some(i + 1)))
        else Refused(401)
  }

  /** Student login succeeds exactly when both fields are given, the login
      name designates a student and the password is that student's
      username followed by "123"; the token names that student. */
  lemma StudentLoginIff(students: seq<Student>, username: Option<string>, password: Option<string>)
    ensures StudentLogin(students, username, password) == Refused(400)
        <==> username.None? || username.value == "" || password.None? || password.value == ""
    ensures StudentLogin(students, username, password).Issued?
        <==> && username.Some? && username.value != "" && password.Some? && password.value != ""
             && FindStudent(students, username.value).Some?
             && password.value == Password(students[FindStudent(students, username.value).value].username)
    ensures StudentLogin(students, username, password).Issued?
        ==> StudentLogin(students, username, password).claims
            == Claims(None, Some(FindStudent(students, username.value).value + 1))
  {
  }

  predicate UniqueAdmissionNumbers(students: seq<Student>)
  {
    forall i, j :: 0 <= i < j < |students| ==> students[i].admissionNumber != students[j].admissionNumber
  }

  /** The credentials `add_student` hands out log the student in. */
  lemma {:induction false} LoginWithUsername(students: seq<Student>, i: nat)
    requires i < |students| && students[i].username != ""
    requires forall j :: 0 <= j < |students| && j != i ==> students[j].username != students[i].username
    ensures StudentLogin(students, Some(students[i].username), Some(Password(students[i].username)))
         == Issued(Claims(None, Some(i + 1)))
  {
    var u := students[i].username;
    assert FindByUsername(students, u) == Some(i);
    assert Password(u) != "";
  }

  /** The admission number works as a login name too, with the same
      password, as long as admission numbers are unique and every username
      was derived from a name. */
  lemma {:induction false} LoginWithAdmissionNumber(students: seq<Student>, i: nat, classLevel: string, n: int)
    requires i < |students| && students[i].admissionNumber == AdmissionNumber(classLevel, n)
    requires UniqueAdmissionNumbers(students)
    requires forall j :: 0 <= j < |students| ==> Lowered(students[j].username)
    ensures StudentLogin(students, Some(students[i].admissionNumber), Some(Password(students[i].username)))
         == Issued(Claims(None, Some(i + 1)))
  {
    NoUsernameIsNumber(students, classLevel, n);
    NumberFindsStudent(students, i);
    assert |AdmissionNumber(classLevel, n)| >= 8;
    LoginAs(students, students[i].admissionNumber, i);
  }

  /** A login name that designates student `i`, with that student's
      derived password, issues a token for `i`. */
  lemma LoginAs(students: seq<Student>, login: string, i: nat)
    requires login != "" && FindStudent(students, login) == Some(i)
    ensures StudentLogin(students, Some(login), Some(Password(students[i].username)))
         == Issued(Claims(None, Some(i + 1)))
  {
  }

  /** No generated username equals an admission number. */
  lemma NoUsernameIsNumber(students: seq<Student>, classLevel: string, n: int)
    requires forall j :: 0 <= j < |students| ==> Lowered(students[j].username)
    ensures forall j :: 0 <= j < |students| ==> students[j].username != AdmissionNumber(classLevel, n)
  {
    forall j | 0 <= j < |students| ensures students[j].username != AdmissionNumber(classLevel, n) {
      UsernameIsNoAdmissionNumber(students[j].username, classLevel, n);
    }
  }

  /** An admission number that is unique and no student's username finds
      its own student. */
  lemma {:induction false} NumberFindsStudent(students: seq<Student>, i: nat)
    requires i < |students|
    requires UniqueAdmissionNumbers(students)
    requires forall j :: 0 <= j < |students| ==> students[j].username != students[i].admissionNumber
    ensures FindStudent(students, students[i].admissionNumber) == Some(i)
  {
    var a := students[i].admissionNumber;
    assert FindByUsername(students, a).None?;
    assert FindByAdmissionNumber(students, a) == Some(i);
  }

  /** Any password other than the expected one is refused. */
  lemma WrongPassword(students: seq<Student>, login: string, password: string)
    requires login != "" && password != ""
    requires FindStudent(students, login).Some?
    requires password != Password(students[FindStudent(students, login).value].username)
    ensures StudentLogin(students, Some(login), Some(password)) == Refused(401)
  {
  }

  /** As written, the stored password is never consulted: changing it does
      not change the outcome of any login. */
  lemma StoredPasswordIgnored(students: seq<Student>, k: nat, p: string, username: Option<string>, password: Option<string>)
    requires k < |students|
    ensures StudentLogin(students[k := students[k].(password := p)], username, password)
         == StudentLogin(students, username, password)
  {
    var t := students[k := students[k].(password := p)];
    if username.Some? {
      SameLookups(students, t, username.value);
      var f := FindStudent(students, username.value);
      assert FindStudent(t, username.value) == f;
      assert f.Some? ==> t[f.value].username == students[f.value].username;
    }
  }

  lemma {:induction false} SameLookups(s: seq<Student>, t: seq<Student>, login: string)
    requires |s| == |t|
    requires forall j :: 0 <= j < |t| ==> t[j].username == s[j].username && t[j].admissionNumber == s[j].admissionNumber
    ensures FindByUsername(t, login) == FindByUsername(s, login)
    ensures FindByAdmissionNumber(t, login) == FindByAdmissionNumber(s, login)
  {
    if s != [] {
      SameLookups(s[1..], t[1..], login);
    }
  }
}
