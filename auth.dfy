/** The `token_required` guard and the role gates of the handlers. The
    token is the second space-separated piece of the `Authorization`
    header; signature and expiry checking are a decoder passed in, which
    returns the token's claims or `None` for a token it rejects. */
module Auth {
  import opened Text
  import opened Records
  import opened Credentials

  /** The record a token resolves to; its tag is the handlers' `is_admin`. */
  datatype Principal = AdminUser(id: int) | StudentUser(id: int)

  datatype AuthOutcome = Authorized(user: Principal) | Rejected(status: int)

  /** `token_required`. No header, an empty token, a token the decoder
      rejects, a claim without a subject or a subject that is not in the
      store give 401. A header without a space makes the `split(" ")[1]`
      raise outside the guarded block, which Flask answers with 500. A
      claim with an admin id resolves to an admin; any other claim to a
      student. */
  function Authenticate(header: Option<string>, decode: string -> Option<Claims>,
                        admins: seq<Admin>, students: seq<Student>): (r: AuthOutcome)
    ensures r.Authorized? && r.user.AdminUser? ==> 1 <= r.user.id <= |admins|
    ensures r.Authorized? && r.user.StudentUser? ==> 1 <= r.user.id <= |students|
  {
    if header.None? then Rejected(401)
    else match SplitSecond(header.value, " ")
      case None => Rejected(500)
      case Some(token) =>
        if token == "" then Rejected(401)
        else match decode(token)
          case None => Rejected(401)
          case Some(claims) => Resolve(claims, admins, students)
  }

  /** The lookup of the principal a decoded token names: an admin id wins
      over a student id, and an id that is not in its table is 401. */
  function Resolve(claims: Claims, admins: seq<Admin>, students: seq<Student>): (r: AuthOutcome)
    ensures r.Authorized? && r.user.AdminUser? ==> 1 <= r.user.id <= |admins|
    ensures r.Authorized? && r.user.StudentUser? ==> 1 <= r.user.id <= |students|
    ensures r.Rejected? ==> r.status == 401
  {
    if claims.adminId.Some? then
      if 1 <= claims.adminId.value <= |admins| then Authorized(AdminUser(claims.adminId.value)) else Rejected(401)
    else if claims.studentId.Some? && 1 <= claims.studentId.value <= |students| then
      Authorized(StudentUser(claims.studentId.value))
    else Rejected(401)
  }

  /** Dispatch: an admin id wins over a student id; the resolved user
      exists in its table; everything that is not a well-formed header
      carrying a decodable token is 401, except a header without a space,
      which is 500. */
  lemma AuthenticateCases(header: Option<string>, decode: string -> Option<Claims>,
                          admins: seq<Admin>, students: seq<Student>)
    ensures header.None? ==> Authenticate(header, decode, admins, students) == Rejected(401)
    ensures header.Some? && (forall j :: !OccursAt(header.value, " ", j))
            ==> Authenticate(header, decode, admins, students) == Rejected(500)
    ensures header.Some? && SplitSecond(header.value, " ") == Some("")
            ==> Authenticate(header, decode, admins, students) == Rejected(401)
    ensures header.Some? && SplitSecond(header.value, " ").Some? && SplitSecond(header.value, " ").value != ""
            ==> Authenticate(header, decode, admins, students)
                == match decode(SplitSecond(header.value, " ").value)
                   case None => Rejected(401)
                   case Some(c) => Resolve(c, admins, students)
    ensures Authenticate(header, decode, admins, students).Rejected?
            ==> Authenticate(header, decode, admins, students).status in {401, 500}
  {
  }

  /** A resolved principal exists, and the admin flag follows the claim. */
  lemma ResolveSound(claims: Claims, admins: seq<Admin>, students: seq<Student>)
    ensures Resolve(claims, admins, students).Authorized? && Resolve(claims, admins, students).user.AdminUser?
            <==> claims.adminId.Some? && Get(admins, claims.adminId.value).Some?
    ensures Resolve(claims, admins, students).Authorized? && Resolve(claims, admins, students).user.StudentUser?
            <==> claims.adminId.None? && claims.studentId.Some? && Get(students, claims.studentId.value).Some?
  {
  }

  /** `"Bearer " + token` splits back to the token when it has no space. */
  lemma SplitBearer(token: string)
    requires forall i :: 0 <= i < |token| ==> token[i] != ' '
    ensures SplitSecond("Bearer " + token, " ") == Some(token)
  {
    var h := "Bearer " + token;
    assert h[6..7] == " " && OccursAt(h, " ", 6);
    forall j: nat | j < 6 ensures !OccursAt(h, " ", j) {
      Mismatch(h, " ", j, 0);
    }
    assert FindFrom(h, " ", 0) == Some(6);
    forall j: nat | 7 <= j ensures !OccursAt(h, " ", j) {
      if j < |h| {
        assert h[j] == token[j - 7];
        Mismatch(h, " ", j, 0);
      }
    }
    assert FindFrom(h, " ", 7).None?;
    assert h[7..] == token;
  }

  /** A token issued by admin login and presented as `Bearer <token>`
      authenticates as the admin who logged in. */
  lemma AdminLoginThenAuthenticate(admins: seq<Admin>, students: seq<Student>,
                                   username: Option<string>, password: Option<string>,
                                   token: string, decode: string -> Option<Claims>)
    requires AdminLogin(admins, username, password).Issued?
    requires token != "" && forall i :: 0 <= i < |token| ==> token[i] != ' '
    requires decode(token) == Some(AdminLogin(admins, username, password).claims)
    ensures Authenticate(Some("Bearer " + token), decode, admins, students)
            == Authorized(AdminUser(FindAdmin(admins, username.value).value + 1))
  {
    SplitBearer(token);
  }

  /** A token issued by student login and presented as `Bearer <token>`
      authenticates as the student who logged in. */
  lemma StudentLoginThenAuthenticate(admins: seq<Admin>, students: seq<Student>,
                                     username: Option<string>, password: Option<string>,
                                     token: string, decode: string -> Option<Claims>)
    requires StudentLogin(students, username, password).Issued?
    requires token != "" && forall i :: 0 <= i < |token| ==> token[i] != ' '
    requires decode(token) == Some(StudentLogin(students, username, password).claims)
    ensures Authenticate(Some("Bearer " + token), decode, admins, students)
            == Authorized(StudentUser(FindStudent(students, username.value).value + 1))
  {
    SplitBearer(token);
  }

  /** The role gate of admin-only handlers: the guard's status, or 403 for
      a student; `None` lets the handler run. */
  function AdminGate(o: AuthOutcome): (r: Option<int>)
    ensures r.None? <==> o.Authorized? && o.user.AdminUser?
    ensures r.Some? ==> r.value == 403 || (o.Rejected? && r.value == o.status)
  {
    if o.Rejected? then Some(o.status)
    else if o.user.StudentUser? then Some(403)
    else None
  }

  /** The role gate of student-only handlers. */
  function StudentGate(o: AuthOutcome): (r: Option<int>)
    ensures r.None? <==> o.Authorized? && o.user.StudentUser?
    ensures r.Some? ==> r.value == 403 || (o.Rejected? && r.value == o.status)
  {
    if o.Rejected? then Some(o.status)
    else if o.user.AdminUser? then Some(403)
    else None
  }

  /** Each gate lets exactly its own role through, refuses the other role
      with 403 and passes the guard's refusal on; no outcome passes both. */
  lemma GatesExclusive(o: AuthOutcome)
    ensures AdminGate(o).None? <==> o.Authorized? && o.user.AdminUser?
    ensures StudentGate(o).None? <==> o.Authorized? && o.user.StudentUser?
    ensures o.Authorized? ==> (AdminGate(o) == Some(403) <==> StudentGate(o).None?)
    ensures o.Rejected? ==> AdminGate(o) == StudentGate(o) == Some(o.status)
    ensures AdminGate(o).None? ==> StudentGate(o) == Some(403)
  {
  }
}
