/** The API as one state machine: each request is routed to its handler, and
    the database is the only state carried from one request to the next. */
module Api {
  import opened Wrappers
  import opened Store
  import opened Auth
  import opened Reports

  /** One HTTP request to an API route, with the clock reading the handler
      would take where it needs one. */
  datatype Request =
    | RegisterUser(form: Registration)
    | LogIn(credentials: Credentials)
    | RecoverPassword(email: Option<string>)
    | SubmitReport(submission: Submission, now: string)
    | ListReports(query: Query)
    | SetStatus(reportId: nat, status: Option<string>, today: string)
    | RemoveReport(reportId: nat)

  /** The request does not make the storage layer raise: a submission fills
      the NOT NULL columns and the AUTOINCREMENT counter has room. */
  predicate Admissible(s: Store, req: Request)
  {
    req.SubmitReport? ==> Storable(req.submission) && s.lastReportId < MaxRowId
  }

  /** Requests that only read the database. */
  predicate ReadOnly(req: Request)
  {
    req.LogIn? || req.RecoverPassword? || req.ListReports?
  }

  function Step(s: Store, req: Request): (r: Response)
    requires Valid(s) && Admissible(s, req)
    ensures Valid(r.store)
    ensures r.code in {Ok, Created, BadRequest, Unauthorized, Forbidden, NotFound, Conflict}
    ensures ReadOnly(req) ==> r.store == s
    ensures r.code >= 400 ==> r.store == s
    ensures forall k :: k in s.users ==> k in r.store.users && r.store.users[k] == s.users[k]
    ensures s.lastReportId <= r.store.lastReportId <= s.lastReportId + 1
    ensures forall k :: k in r.store.reports ==> k in s.reports || k > s.lastReportId
  {
    match req
    case RegisterUser(form) => Register(s, form)
    case LogIn(credentials) => Login(s, credentials)
    case RecoverPassword(email) => ForgotPassword(s, email)
    case SubmitReport(submission, now) => Create(s, submission, now)
    case ListReports(query) => List(s, query)
    case SetStatus(reportId, status, today) => UpdateStatus(s, reportId, status, today)
    case RemoveReport(reportId) => Delete(s, reportId)
  }

  /** Every submission in the sequence fills the NOT NULL columns. */
  predicate AllStorable(reqs: seq<Request>)
  {
    forall i :: 0 <= i < |reqs| ==> (reqs[i].SubmitReport? ==> Storable(reqs[i].submission))
  }

  /** The database after serving `reqs` one after another. Each request can
      raise the AUTOINCREMENT counter by at most one, so room for as many
      ids as there are requests is enough to keep the storage layer from
      failing. */
  function Run(s: Store, reqs: seq<Request>): (t: Store)
    requires Valid(s)
    requires AllStorable(reqs)
    requires s.lastReportId + |reqs| <= MaxRowId
    ensures Valid(t)
    ensures forall k :: k in s.users ==> k in t.users && t.users[k] == s.users[k]
    ensures s.lastReportId <= t.lastReportId <= s.lastReportId + |reqs|
    ensures forall k :: k in t.reports ==> k in s.reports || k > s.lastReportId
    decreases |reqs|
  {
    if reqs == [] then s
    else
      var next := Step(s, reqs[0]).store;
      assert AllStorable(reqs[1..]) by {
        forall i | 0 <= i < |reqs[1..]|
          ensures reqs[1..][i].SubmitReport? ==> Storable(reqs[1..][i].submission)
        {
          assert reqs[1..][i] == reqs[i + 1];
        }
      }
      Run(next, reqs[1..])
  }

  /** A deleted report id is never handed out again, however many requests
      follow. This holds for any id up to the AUTOINCREMENT counter, in
      particular for every id of a stored report. */
  lemma DeletedIdNeverReused(s: Store, id: nat, reqs: seq<Request>)
    requires Valid(s)
    requires id <= s.lastReportId
    requires AllStorable(reqs)
    requires s.lastReportId + |reqs| <= MaxRowId
    ensures id !in Run(Delete(s, id).store, reqs).reports
  {
    var d := Delete(s, id).store;
    assert id !in d.reports && d.lastReportId == s.lastReportId;
  }

  /** Starting from freshly created tables, report ids are handed out from 1
      upwards and there are never more of them than requests served. */
  lemma RunFromEmpty(reqs: seq<Request>)
    requires AllStorable(reqs)
    requires |reqs| <= MaxRowId
    ensures forall k :: k in Run(Empty(), reqs).reports ==> 1 <= k <= |reqs|
  {
    var t := Run(Empty(), reqs);
    assert Valid(t) && t.lastReportId <= |reqs|;
  }
}
