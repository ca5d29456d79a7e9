/** lib/auth.ts: credential check for the two roles. The password-hash
    comparison is a parameter `verify(password, hash)`. */
module Auth {
  import opened Wrappers

  /** A row of a credential table; `P` is the role-specific profile. */
  datatype Credential<P> = Credential(id: string, username: string, passwordHash: string, profile: P)

  /** Profile columns of the `teachers` table. */
  datatype TeacherProfile = TeacherProfile(schoolId: string, fullName: Option<string>)

  type TeacherRow = Credential<TeacherProfile>
  /** `central_office_users` rows carry no profile columns. */
  type OfficeRow = Credential<()>

  /** The identity handed back on success; it has no password material. */
  datatype Identity =
    | Teacher(id: string, username: string, schoolId: string, fullName: Option<string>)
    | CentralOffice(id: string, username: string)
  {
    function Role(): string {
      match this
      case Teacher(_, _, _, _) => "teacher"
      case CentralOffice(_, _) => "central_office"
    }
  }

  datatype LoginResult = LoggedIn(user: Identity) | Rejected(error: string)

  /** The one failure message, whatever went wrong. */
  const InvalidCredentials := "Invalid username or password"

  /** The rows whose username is exactly `username`, in table order. */
  function Named<P>(table: seq<Credential<P>>, username: string): (rs: seq<Credential<P>>)
    ensures forall i :: 0 <= i < |rs| ==> rs[i] in table && rs[i].username == username
    ensures forall i :: 0 <= i < |table| && table[i].username == username ==> table[i] in rs
    decreases |table|
  {
    if |table| == 0 then []
    else if table[0].username == username then [table[0]] + Named(table[1..], username)
    else Named(table[1..], username)
  }

  /** `.eq('username', u).single()`: a row only when exactly one matches. */
  function Single<P>(table: seq<Credential<P>>, username: string): Option<Credential<P>> {
    var rs := Named(table, username);
    if |rs| == 1 then Some(rs[0]) else None
  }

  /** Row `i` is the only row of the table with this username. */
  ghost predicate OnlyMatch<P>(table: seq<Credential<P>>, username: string, i: int) {
    0 <= i < |table| && table[i].username == username
    && forall j :: 0 <= j < |table| && table[j].username == username ==> j == i
  }

  /** No row of the table has this username. */
  ghost predicate Unknown<P>(table: seq<Credential<P>>, username: string) {
    forall j :: 0 <= j < |table| ==> table[j].username != username
  }

  lemma {:induction false} NamedOfUnknown<P>(table: seq<Credential<P>>, username: string)
    requires Unknown(table, username)
    ensures Named(table, username) == []
    decreases |table|
  {
    if |table| > 0 {
      NamedOfUnknown(table[1..], username);
    }
  }

  /** The lookup finds a row exactly when one row, and only one, has the username. */
  lemma {:induction false} SingleFindsOnlyMatch<P>(table: seq<Credential<P>>, username: string)
    ensures Single(table, username).Some? <==> exists i :: OnlyMatch(table, username, i)
    ensures forall i :: OnlyMatch(table, username, i) ==> Single(table, username) == Some(table[i])
    decreases |table|
  {
    if |table| > 0 {
      var rest := table[1..];
      SingleFindsOnlyMatch(rest, username);
      if table[0].username == username {
        if Unknown(rest, username) {
          NamedOfUnknown(rest, username);
          assert OnlyMatch(table, username, 0);
        } else {
          var j :| 0 <= j < |rest| && rest[j].username == username;
          assert rest[j] in Named(rest, username);
          forall i | 0 <= i < |table|
            ensures !OnlyMatch(table, username, i)
          {
            assert table[j + 1] == rest[j];
            assert table[0].username == username && table[j + 1].username == username;
          }
        }
      } else {
        forall i | OnlyMatch(table, username, i)
          ensures OnlyMatch(rest, username, i - 1)
        {
          forall j | 0 <= j < |rest| && rest[j].username == username
            ensures j == i - 1
          {
            assert table[j + 1] == rest[j];
          }
        }
        forall i | OnlyMatch(rest, username, i)
          ensures OnlyMatch(table, username, i + 1)
        {
          forall j | 0 <= j < |table| && table[j].username == username
            ensures j == i + 1
          {
            assert j > 0 && rest[j - 1] == table[j];
          }
        }
      }
    }
  }

  /** loginTeacher. */
  function LoginTeacher(teachers: seq<TeacherRow>, verify: (string, string) -> bool,
                        username: string, password: string): (r: LoginResult)
    ensures r.Rejected? ==> r.error == InvalidCredentials
    ensures r.LoggedIn? ==> r.user.Teacher? && r.user.username == username
  {
    match Single(teachers, username)
    case None => Rejected(InvalidCredentials)
    case Some(c) =>
      if !verify(password, c.passwordHash) then Rejected(InvalidCredentials)
      else LoggedIn(Teacher(c.id, c.username, c.profile.schoolId, c.profile.fullName))
  }

  /** loginCentralOffice. */
  function LoginCentralOffice(offices: seq<OfficeRow>, verify: (string, string) -> bool,
                              username: string, password: string): (r: LoginResult)
    ensures r.Rejected? ==> r.error == InvalidCredentials
    ensures r.LoggedIn? ==> r.user.CentralOffice? && r.user.username == username
  {
    match Single(offices, username)
    case None => Rejected(InvalidCredentials)
    case Some(c) =>
      if !verify(password, c.passwordHash) then Rejected(InvalidCredentials)
      else LoggedIn(CentralOffice(c.id, c.username))
  }

  /** A teacher logs in exactly when one row has the username and its hash
      verifies the password; the identity copies that row's columns. */
  lemma TeacherLoginSpec(teachers: seq<TeacherRow>, verify: (string, string) -> bool,
                         username: string, password: string)
    ensures LoginTeacher(teachers, verify, username, password).LoggedIn? <==>
              exists i :: OnlyMatch(teachers, username, i) && verify(password, teachers[i].passwordHash)
    ensures forall i :: OnlyMatch(teachers, username, i) && verify(password, teachers[i].passwordHash) ==>
              var c := teachers[i];
              LoginTeacher(teachers, verify, username, password)
                == LoggedIn(Teacher(c.id, c.username, c.profile.schoolId, c.profile.fullName))
  {
    SingleFindsOnlyMatch(teachers, username);
  }

  /** The same for the central office, whose identity has only id and username. */
  lemma CentralOfficeLoginSpec(offices: seq<OfficeRow>, verify: (string, string) -> bool,
                               username: string, password: string)
    ensures LoginCentralOffice(offices, verify, username, password).LoggedIn? <==>
              exists i :: OnlyMatch(offices, username, i) && verify(password, offices[i].passwordHash)
    ensures forall i :: OnlyMatch(offices, username, i) && verify(password, offices[i].passwordHash) ==>
              LoginCentralOffice(offices, verify, username, password)
                == LoggedIn(CentralOffice(offices[i].id, offices[i].username))
  {
    SingleFindsOnlyMatch(offices, username);
  }

  /** An unknown username and a known one with a wrong password give the
      same result, so the reply does not reveal which usernames exist. */
  lemma TeacherNonEnumeration(teachers: seq<TeacherRow>, verify: (string, string) -> bool,
                              unknown: string, anyPassword: string,
                              known: string, wrongPassword: string, i: int)
    requires Unknown(teachers, unknown)
    requires OnlyMatch(teachers, known, i) && !verify(wrongPassword, teachers[i].passwordHash)
    ensures LoginTeacher(teachers, verify, unknown, anyPassword)
         == LoginTeacher(teachers, verify, known, wrongPassword)
         == Rejected(InvalidCredentials)
  {
    NamedOfUnknown(teachers, unknown);
    SingleFindsOnlyMatch(teachers, known);
  }

  lemma CentralOfficeNonEnumeration(offices: seq<OfficeRow>, verify: (string, string) -> bool,
                                    unknown: string, anyPassword: string,
                                    known: string, wrongPassword: string, i: int)
    requires Unknown(offices, unknown)
    requires OnlyMatch(offices, known, i) && !verify(wrongPassword, offices[i].passwordHash)
    ensures LoginCentralOffice(offices, verify, unknown, anyPassword)
         == LoginCentralOffice(offices, verify, known, wrongPassword)
         == Rejected(InvalidCredentials)
  {
    NamedOfUnknown(offices, unknown);
    SingleFindsOnlyMatch(offices, known);
  }
}
