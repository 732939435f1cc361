/** The two tables of the civic-issue database as an immutable value, and the
    shape of every handler's reply.

    `users` is keyed by the user id (the table's primary key); `reports` is
    keyed by the integer report id. `lastReportId` is the AUTOINCREMENT
    counter SQLite keeps for `reports`: the largest id ever handed out, which
    deleting a row does not lower, so ids are never reused. */
module Store {
  import opened Wrappers

  /** Largest rowid SQLite can store (a signed 64-bit integer). Once the
      AUTOINCREMENT counter reaches it, further inserts fail. */
  const MaxRowId: int := 0x7FFF_FFFF_FFFF_FFFF

  /** HTTP status codes the handlers return. */
  const Ok: int := 200
  const Created: int := 201
  const BadRequest: int := 400
  const Unauthorized: int := 401
  const Forbidden: int := 403
  const NotFound: int := 404
  const Conflict: int := 409

  /** Report status values the handlers give special meaning to. */
  const Pending: string := "Pending"
  const Resolved: string := "Resolved"

  /** A row of `users`. `password`, `name` and `role` are NOT NULL columns;
      `email` and `domain` are nullable. */
  datatype User = User(
    id: string,
    password: string,
    name: string,
    email: Option<string>,
    role: string,
    domain: Option<string>)

  /** A row of `reports`. `student_id`, `type`, `location` and `date` are
      NOT NULL; `description`, `image_url` and `resolved_date` are nullable.
      `status` is always written by the handlers, never left NULL. */
  datatype Report = Report(
    id: int,
    studentId: string,
    kind: string,
    location: string,
    description: Option<string>,
    imageUrl: Option<string>,
    status: string,
    date: string,
    resolvedDate: Option<string>)

  /** What a successful login hands back: the user without the password. */
  datatype Profile = Profile(id: string, name: string, role: string, domain: Option<string>)

  datatype Store = Store(
    users: map<string, User>,
    reports: map<int, Report>,
    lastReportId: int)

  /** The facts the database itself guarantees of every state: each row
      sits under its own primary key, and every report id lies between 1 and
      the AUTOINCREMENT counter, which stays within the rowid range. */
  predicate Valid(s: Store)
  {
    && (forall k :: k in s.users ==> s.users[k].id == k)
    && (forall k :: k in s.reports ==> s.reports[k].id == k && 1 <= k <= s.lastReportId)
    && 0 <= s.lastReportId <= MaxRowId
  }

  /** Freshly initialised database: both tables empty, counter at zero. */
  function Empty(): (s: Store)
    ensures Valid(s)
    ensures s.users == map[] && s.reports == map[]
  {
    Store(map[], map[], 0)
  }

  /** The JSON body of a reply. */
  datatype Body =
    | Message(text: string)
    | Error(text: string)
    | LoggedIn(text: string, user: Profile)
    | Listing(rows: seq<Report>)

  /** A reply: HTTP status code, JSON body, and the database state afterwards. */
  datatype Response = Response(code: int, body: Body, store: Store)
}
