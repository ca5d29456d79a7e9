/** POST /api/login: field check, role dispatch, status mapping. */
module LoginRoute {
  import opened Wrappers
  import opened Strings
  import opened Auth

  datatype LoginRequest = LoginRequest(username: Option<string>, password: Option<string>, role: Option<string>)

  predicate HasFields(q: LoginRequest) {
    Present(q.username) && Present(q.password) && Present(q.role)
  }

  /** A login result as the handler replies it: 401 with the login's message
      on failure, the identity itself on success. */
  function FromLogin(result: LoginResult): (reply: Reply<Identity>)
    ensures reply.Success? <==> result.LoggedIn?
    ensures result.LoggedIn? ==> reply.data == result.user
    ensures result.Rejected? ==> reply == Failure(401, result.error)
  {
    match result
    case LoggedIn(user) => Success(user)
    case Rejected(e) => Failure(401, e)
  }

  /** The handler; `Success` is the 200 reply `{success: true, user}`. */
  function Post(teachers: seq<TeacherRow>, offices: seq<OfficeRow>, verify: (string, string) -> bool,
                q: LoginRequest): (reply: Reply<Identity>)
    ensures !HasFields(q) ==> reply == Failure(400, "Missing required fields")
    ensures HasFields(q) && q.role.value != "teacher" && q.role.value != "central_office"
            ==> reply == Failure(400, "Invalid role")
    ensures reply.Failure? ==> reply.status in {400, 401}
    ensures reply.Failure? && reply.status == 401 ==> reply.error == InvalidCredentials
    ensures reply.Success? ==> reply.data.Role() == q.role.value && reply.data.username == q.username.value
  {
    if !HasFields(q) then Failure(400, "Missing required fields")
    else if q.role.value == "teacher" then
      FromLogin(LoginTeacher(teachers, verify, q.username.value, q.password.value))
    else if q.role.value == "central_office" then
      FromLogin(LoginCentralOffice(offices, verify, q.username.value, q.password.value))
    else Failure(400, "Invalid role")
  }

  /** A teacher request replies with exactly what loginTeacher returns. */
  lemma TeacherDispatch(teachers: seq<TeacherRow>, offices: seq<OfficeRow>, verify: (string, string) -> bool,
                        username: string, password: string)
    requires username != "" && password != ""
    ensures var reply := Post(teachers, offices, verify, LoginRequest(Some(username), Some(password), Some("teacher")));
            match LoginTeacher(teachers, verify, username, password)
            case LoggedIn(user) => reply == Success(user)
            case Rejected(e) => reply == Failure(401, e)
  {
  }

  /** A central-office request replies with exactly what loginCentralOffice returns. */
  lemma CentralOfficeDispatch(teachers: seq<TeacherRow>, offices: seq<OfficeRow>, verify: (string, string) -> bool,
                              username: string, password: string)
    requires username != "" && password != ""
    ensures var reply := Post(teachers, offices, verify, LoginRequest(Some(username), Some(password), Some("central_office")));
            match LoginCentralOffice(offices, verify, username, password)
            case LoggedIn(user) => reply == Success(user)
            case Rejected(e) => reply == Failure(401, e)
  {
  }

  /** Missing fields and unknown roles are decided before any lookup: the
      reply does not depend on the credential tables or the hash check. */
  lemma RejectionIgnoresTables(t1: seq<TeacherRow>, o1: seq<OfficeRow>, v1: (string, string) -> bool,
                               t2: seq<TeacherRow>, o2: seq<OfficeRow>, v2: (string, string) -> bool,
                               q: LoginRequest)
    requires !HasFields(q) || (q.role.value != "teacher" && q.role.value != "central_office")
    ensures Post(t1, o1, v1, q) == Post(t2, o2, v2, q)
  {
  }

  /** The teacher reply for an unknown username equals the one for a known
      username with a wrong password. */
  lemma LoginNonEnumeration(teachers: seq<TeacherRow>, offices: seq<OfficeRow>, verify: (string, string) -> bool,
                            unknown: string, anyPassword: string, known: string, wrongPassword: string, i: int)
    requires unknown != "" && anyPassword != "" && known != "" && wrongPassword != ""
    requires Unknown(teachers, unknown)
    requires OnlyMatch(teachers, known, i) && !verify(wrongPassword, teachers[i].passwordHash)
    ensures Post(teachers, offices, verify, LoginRequest(Some(unknown), Some(anyPassword), Some("teacher")))
         == Post(teachers, offices, verify, LoginRequest(Some(known), Some(wrongPassword), Some("teacher")))
         == Failure(401, InvalidCredentials)
  {
    TeacherNonEnumeration(teachers, verify, unknown, anyPassword, known, wrongPassword, i);
  }
}
