/** The account handlers: `/register`, `/login` and `/forgot-password`.

    Each takes the database and the request's JSON fields and returns the
    status code, the JSON body and the database afterwards. */
module Auth {
  import opened Wrappers
  import opened Store

  /** The JSON body of a `/register` request. `domain` is optional. */
  datatype Registration = Registration(
    id: Option<string>,
    password: Option<string>,
    name: Option<string>,
    email: Option<string>,
    role: Option<string>,
    domain: Option<string>)

  /** The JSON body of a `/login` request. `role` is optional. */
  datatype Credentials = Credentials(id: Option<string>, password: Option<string>, role: Option<string>)

  /** The row `SELECT * FROM users WHERE id = ? AND password = ?` could find.
      A missing field binds SQL NULL, which equals nothing. */
  predicate RowMatches(u: User, c: Credentials)
  {
    c.id == Some(u.id) && c.password == Some(u.password)
  }

  function ProfileOf(u: User): Profile
  {
    Profile(u.id, u.name, u.role, u.domain)
  }

  /** `/register`: all four of id, password, name and role must be given and
      non-empty; the insert then fails on a taken id (primary key). */
  function Register(s: Store, f: Registration): (r: Response)
    requires Valid(s)
    ensures Valid(r.store)
    ensures r.code in {Created, BadRequest, Conflict}
    ensures r.code == BadRequest <==>
      !Present(f.id) || !Present(f.password) || !Present(f.name) || !Present(f.role)
    ensures r.code == Conflict <==>
      Present(f.id) && Present(f.password) && Present(f.name) && Present(f.role)
      && exists u :: u in s.users.Values && u.id == f.id.value
    ensures r.code != Created ==> r.store == s
    ensures r.code == Created ==>
      && f.id.Some? && f.id.value !in s.users
      && r.store.users.Keys == s.users.Keys + {f.id.value}
      && r.store.users[f.id.value]
         == User(f.id.value, f.password.value, f.name.value, f.email, f.role.value, f.domain)
      && (forall k :: k in s.users ==> r.store.users[k] == s.users[k])
      && r.store.reports == s.reports
      && r.store.lastReportId == s.lastReportId
  {
    if !AllPresent([f.id, f.password, f.name, f.role]) then
      assert !Present(f.id) || !Present(f.password) || !Present(f.name) || !Present(f.role) by {
        var fields := [f.id, f.password, f.name, f.role];
        assert fields[0] == f.id && fields[1] == f.password && fields[2] == f.name && fields[3] == f.role;
      }
      Response(BadRequest, Error("Missing fields"), s)
    else
      var fields := [f.id, f.password, f.name, f.role];
      assert Present(fields[0]) && Present(fields[1]) && Present(fields[2]) && Present(fields[3]);
      var id := f.id.value;
      if id in s.users then
        assert s.users[id] in s.users.Values;
        Response(Conflict, Error("User ID already exists"), s)
      else
        var user := User(id, f.password.value, f.name.value, f.email, f.role.value, f.domain);
        Response(Created, Message("Registration successful"), s.(users := s.users[id := user]))
  }

  /** `/login`: an exact id-and-password match, then an optional role check.
      The reply carries the profile, which has no password field. */
  function Login(s: Store, c: Credentials): (r: Response)
    requires Valid(s)
    ensures r.store == s
    ensures r.code in {Ok, Unauthorized, Forbidden}
    ensures r.code == Unauthorized <==> !exists u :: u in s.users.Values && RowMatches(u, c)
    ensures r.code == Forbidden <==>
      exists u :: u in s.users.Values && RowMatches(u, c) && Present(c.role) && c.role.value != u.role
    ensures r.code == Ok ==>
      exists u :: u in s.users.Values && RowMatches(u, c) && r.body == LoggedIn("Login successful", ProfileOf(u))
  {
    if c.id.Some? && c.password.Some? && c.id.value in s.users
       && s.users[c.id.value].password == c.password.value then
      var u := s.users[c.id.value];
      assert u in s.users.Values && RowMatches(u, c);
      if Present(c.role) && u.role != c.role.value then
        Response(Forbidden, Error("Role mismatch"), s)
      else
        Response(Ok, LoggedIn("Login successful", ProfileOf(u)), s)
    else
      assert forall u :: u in s.users.Values ==> !RowMatches(u, c) by {
        forall u | u in s.users.Values ensures !RowMatches(u, c) {
          var k :| k in s.users && s.users[k] == u;
        }
      }
      Response(Unauthorized, Error("Invalid credentials"), s)
  }

  /** `/forgot-password`: the email must be given and non-empty, and some user
      must have it. Which user is found when several share an email does not
      affect the reply. */
  function ForgotPassword(s: Store, email: Option<string>): (r: Response)
    ensures r.store == s
    ensures r.code in {Ok, BadRequest, NotFound}
    ensures r.code == BadRequest <==> !Present(email)
    ensures r.code == NotFound <==>
      Present(email) && forall u :: u in s.users.Values ==> u.email != email
    ensures r.code == Ok ==> r.body == Message("Password sent to " + email.value)
  {
    if !Present(email) then
      Response(BadRequest, Error("Email is required"), s)
    else if exists u :: u in s.users.Values && u.email == email then
      Response(Ok, Message("Password sent to " + email.value), s)
    else
      Response(NotFound, Error("Email not registered"), s)
  }

  /** A user who has just registered can log in with the same id and
      password, and receives exactly the fields they registered with. */
  lemma RegisterThenLogin(s: Store, f: Registration)
    requires Valid(s)
    requires Register(s, f).code == Created
    ensures var s' := Register(s, f).store;
      var r := Login(s', Credentials(f.id, f.password, None));
      && r.code == Ok
      && r.body == LoggedIn("Login successful", Profile(f.id.value, f.name.value, f.role.value, f.domain))
  {
    var s' := Register(s, f).store;
    var u := s'.users[f.id.value];
    assert u in s'.users.Values;
    assert RowMatches(u, Credentials(f.id, f.password, None));
  }

  /** Once a user has registered with a non-empty email, a password
      recovery for that email finds them. */
  lemma RegisterThenRecover(s: Store, f: Registration)
    requires Valid(s)
    requires Register(s, f).code == Created
    requires Present(f.email)
    ensures var r := ForgotPassword(Register(s, f).store, f.email);
      r.code == Ok && r.body == Message("Password sent to " + f.email.value)
  {
    var s' := Register(s, f).store;
    assert s'.users[f.id.value] in s'.users.Values;
  }

  /** Supplying the role one registered with still logs in; supplying any
      other non-empty role is refused even though the credentials match. */
  lemma RegisterThenLoginWithRole(s: Store, f: Registration, role: string)
    requires Valid(s)
    requires Register(s, f).code == Created
    ensures var s' := Register(s, f).store;
      var r := Login(s', Credentials(f.id, f.password, Some(role)));
      && (role == f.role.value ==> r.code == Ok)
      && (role != "" && role != f.role.value ==> r.code == Forbidden)
  {
    var s' := Register(s, f).store;
    var c := Credentials(f.id, f.password, Some(role));
    var u := s'.users[f.id.value];
    assert u in s'.users.Values && RowMatches(u, c);
    if role == f.role.value {
      assert forall v :: v in s'.users.Values && RowMatches(v, c) ==> v == u by {
        forall v | v in s'.users.Values && RowMatches(v, c) ensures v == u {
          var k :| k in s'.users && s'.users[k] == v;
        }
      }
    }
  }

  /** Registering the same id a second time is refused with 409, whatever
      non-empty password, name and role the second request carries. */
  lemma RegisterTwiceConflicts(s: Store, f: Registration, g: Registration)
    requires Valid(s)
    requires Register(s, f).code == Created
    requires g.id == f.id && Present(g.password) && Present(g.name) && Present(g.role)
    ensures Register(Register(s, f).store, g).code == Conflict
  {
    var s' := Register(s, f).store;
    assert s'.users[f.id.value] in s'.users.Values;
  }

  /** Registering one account does not change how a login for any other id
      is answered. */
  lemma RegisterLeavesOtherLogins(s: Store, f: Registration, c: Credentials)
    requires Valid(s)
    requires Register(s, f).code == Created
    requires c.id != f.id
    ensures Login(Register(s, f).store, c).code == Login(s, c).code
    ensures Login(Register(s, f).store, c).body == Login(s, c).body
  {
  }
}
