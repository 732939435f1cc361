/** The report handlers: `/api/reports` (POST creates, GET lists) and
    `/api/reports/<id>` (PUT updates the status, DELETE removes).

    The clock is a parameter: `now` is the `YYYY-MM-DD HH:MM:SS` timestamp a
    new report is stamped with, `today` the `YYYY-MM-DD` date a resolution is
    stamped with. */
module Reports {
  import opened Wrappers
  import opened Store
  import opened TextOrder
  import opened Rows

  /** The JSON body of a report submission. */
  datatype Submission = Submission(
    studentId: Option<string>,
    kind: Option<string>,
    location: Option<string>,
    description: Option<string>,
    image: Option<string>)

  /** The query arguments of a listing request. */
  datatype Query = Query(studentId: Option<string>, domain: Option<string>)

  /** Admin domains that name a report type rather than a location. */
  predicate IsCategory(domain: string)
  {
    domain == "Cleanliness" || domain == "Maintenance"
  }

  /** The admin domain that asks for every report. */
  const AllReports: string := "All Reports"

  /** The submission fills every NOT NULL column of `reports`; without that
      the insert raises an error the handler does not catch. */
  predicate Storable(f: Submission)
  {
    f.studentId.Some? && f.kind.Some? && f.location.Some?
  }

  /** POST `/api/reports`: stores a new Pending report under the next
      AUTOINCREMENT id. */
  function Create(s: Store, f: Submission, now: string): (r: Response)
    requires Valid(s)
    requires Storable(f)
    requires s.lastReportId < MaxRowId
    ensures Valid(r.store)
    ensures r.code == Created && r.body == Message("Report submitted successfully")
    ensures r.store.users == s.users
    ensures r.store.lastReportId == s.lastReportId + 1
    ensures var id := r.store.lastReportId;
      && id !in s.reports
      && (forall k :: k in s.reports ==> k < id)
      && r.store.reports.Keys == s.reports.Keys + {id}
      && r.store.reports[id]
         == Report(id, f.studentId.value, f.kind.value, f.location.value,
                   f.description, f.image, Pending, now, None)
      && (forall k :: k in s.reports ==> r.store.reports[k] == s.reports[k])
  {
    var id := s.lastReportId + 1;
    var report := Report(id, f.studentId.value, f.kind.value, f.location.value,
                         f.description, f.image, Pending, now, None);
    Response(Created, Message("Report submitted successfully"),
             s.(reports := s.reports[id := report], lastReportId := id))
  }

  /** The WHERE clause the listing builds: a non-empty student id wins;
      otherwise a non-empty domain filters by type when it is a category and
      by location unless it is "All Reports". */
  predicate Selects(q: Query, x: Report)
  {
    if Present(q.studentId) then x.studentId == q.studentId.value
    else if Present(q.domain) then
      if IsCategory(q.domain.value) then x.kind == q.domain.value
      else if q.domain.value != AllReports then x.location == q.domain.value
      else true
    else true
  }

  /** The rows the WHERE clause keeps, in their original order. */
  function Filter(rows: seq<Report>, q: Query): (r: seq<Report>)
    ensures forall x :: x in r <==> x in rows && Selects(q, x)
  {
    if rows == [] then []
    else
      assert forall x :: x in rows <==> x == rows[0] || x in rows[1..] by {
        assert rows == [rows[0]] + rows[1..];
      }
      var rest := Filter(rows[1..], q);
      if Selects(q, rows[0]) then [rows[0]] + rest else rest
  }

  /** Filtering a table, whose rows are all different, yields no repeats. */
  lemma {:induction false} FilterDistinct(rows: seq<Report>, q: Query)
    requires Distinct(rows)
    ensures Distinct(Filter(rows, q))
  {
    if rows != [] {
      DistinctTail(rows);
      FilterDistinct(rows[1..], q);
      if Selects(q, rows[0]) {
        DistinctCons(rows[0], Filter(rows[1..], q));
      }
    }
  }

  /** GET `/api/reports`: the reports the query selects, newest first. Rows
      with equal dates may come in any order. */
  function List(s: Store, q: Query): (r: Response)
    requires Valid(s)
    ensures r.store == s && r.code == Ok && r.body.Listing?
    ensures SortedByDateDesc(r.body.rows)
    ensures forall i, j :: 0 <= i < j < |r.body.rows| ==> r.body.rows[i].id != r.body.rows[j].id
    ensures Present(q.studentId) ==>
      forall x :: x in r.body.rows <==> x in s.reports.Values && x.studentId == q.studentId.value
    ensures !Present(q.studentId) && Present(q.domain) && IsCategory(q.domain.value) ==>
      forall x :: x in r.body.rows <==> x in s.reports.Values && x.kind == q.domain.value
    ensures !Present(q.studentId) && Present(q.domain) && !IsCategory(q.domain.value)
            && q.domain.value != AllReports ==>
      forall x :: x in r.body.rows <==> x in s.reports.Values && x.location == q.domain.value
    ensures !Present(q.studentId) && (!Present(q.domain) || q.domain.value == AllReports) ==>
      forall x :: x in r.body.rows <==> x in s.reports.Values
  {
    var scanned := Scan(s.reports);
    assert Distinct(scanned);
    var selected := Filter(scanned, q);
    FilterDistinct(scanned, q);
    var rows := SortByDateDesc(selected);
    DistinctPermutation(selected, rows);
    assert forall x :: x in rows <==> x in selected by {
      forall x ensures x in rows <==> x in selected {
        assert x in rows <==> x in multiset(rows);
        assert x in selected <==> x in multiset(selected);
      }
    }
    assert forall i, j :: 0 <= i < j < |rows| ==> rows[i].id != rows[j].id by {
      forall i, j | 0 <= i < j < |rows| ensures rows[i].id != rows[j].id {
        assert rows[i] in s.reports.Values && rows[j] in s.reports.Values;
        var a :| a in s.reports && s.reports[a] == rows[i];
        var b :| b in s.reports && s.reports[b] == rows[j];
      }
    }
    Response(Ok, Listing(rows), s)
  }

  /** PUT `/api/reports/<id>`: a non-empty status is written to the row with
      that id, if any, and a "Resolved" status also stamps the resolution
      date; the reply is 200 whether or not the row exists. A missing or empty
      status changes nothing and is answered 400. */
  function UpdateStatus(s: Store, id: nat, status: Option<string>, today: string): (r: Response)
    requires Valid(s)
    ensures Valid(r.store)
    ensures !Present(status) ==>
      r.code == BadRequest && r.body == Error("Invalid request") && r.store == s
    ensures Present(status) ==>
      && r.code == Ok && r.body == Message("Status updated")
      && r.store.users == s.users
      && r.store.lastReportId == s.lastReportId
      && r.store.reports.Keys == s.reports.Keys
      && (forall k :: k in s.reports && k != id ==> r.store.reports[k] == s.reports[k])
    ensures Present(status) && id in s.reports ==>
      var before, after := s.reports[id], r.store.reports[id];
      && after.status == status.value
      && after.resolvedDate == (if status.value == Resolved then Some(today) else before.resolvedDate)
      && after.(status := before.status, resolvedDate := before.resolvedDate) == before
  {
    if !Present(status) then
      Response(BadRequest, Error("Invalid request"), s)
    else if id !in s.reports then
      Response(Ok, Message("Status updated"), s)
    else
      var before := s.reports[id];
      var after :=
        if status.value == Resolved then before.(status := status.value, resolvedDate := Some(today))
        else before.(status := status.value);
      Response(Ok, Message("Status updated"), s.(reports := s.reports[id := after]))
  }

  /** DELETE `/api/reports/<id>`: removes the row with that id if there is
      one; the reply is 200 either way. The AUTOINCREMENT counter is not
      lowered. */
  function Delete(s: Store, id: nat): (r: Response)
    requires Valid(s)
    ensures Valid(r.store)
    ensures r.code == Ok && r.body == Message("Report deleted")
    ensures r.store.users == s.users
    ensures r.store.lastReportId == s.lastReportId
    ensures r.store.reports.Keys == s.reports.Keys - {id}
    ensures forall k :: k in r.store.reports ==> r.store.reports[k] == s.reports[k]
  {
    Response(Ok, Message("Report deleted"), s.(reports := s.reports - {id}))
  }

  /** Deleting twice leaves the same database, and gives the same reply, as
      deleting once. */
  lemma DeleteIdempotent(s: Store, id: nat)
    requires Valid(s)
    ensures Delete(Delete(s, id).store, id) == Delete(s, id)
  {
    var once := Delete(s, id).store;
    assert once.reports - {id} == once.reports;
  }

  /** Repeating a status update with the same status and date changes
      nothing further. */
  lemma UpdateIdempotent(s: Store, id: nat, status: Option<string>, today: string)
    requires Valid(s)
    ensures var once := UpdateStatus(s, id, status, today);
      UpdateStatus(once.store, id, status, today) == once
  {
    var once := UpdateStatus(s, id, status, today);
    if Present(status) && id in s.reports {
      assert once.store.reports[id := once.store.reports[id]] == once.store.reports;
    }
  }

  /** Once resolved, a report keeps its resolution date through later
      status changes to anything but "Resolved", even back to "Pending". */
  lemma ResolutionDateSticks(s: Store, id: nat, today: string, status: string, later: string)
    requires Valid(s)
    requires id in s.reports
    requires status != "" && status != Resolved
    ensures var resolved := UpdateStatus(s, id, Some(Resolved), today).store;
      var changed := UpdateStatus(resolved, id, Some(status), later).store;
      && changed.reports[id].status == status
      && changed.reports[id].resolvedDate == Some(today)
  {
  }

  /** Status updates of two different reports do not interfere. */
  lemma UpdatesCommute(s: Store, i: nat, j: nat, a: Option<string>, b: Option<string>, today: string)
    requires Valid(s)
    requires i != j
    ensures UpdateStatus(UpdateStatus(s, i, a, today).store, j, b, today).store
         == UpdateStatus(UpdateStatus(s, j, b, today).store, i, a, today).store
  {
  }

  /** A new report shows up in the unfiltered listing, and when its
      timestamp is later than every stored one it is listed first. */
  lemma CreateThenListNewestFirst(s: Store, f: Submission, now: string)
    requires Valid(s) && Storable(f) && s.lastReportId < MaxRowId
    ensures var s' := Create(s, f, now).store;
      var rows := List(s', Query(None, None)).body.rows;
      && s'.reports[s'.lastReportId] in rows
      && ((forall k :: k in s.reports ==> s.reports[k].date != now && LexLe(s.reports[k].date, now))
          ==> rows[0] == s'.reports[s'.lastReportId])
  {
    var s' := Create(s, f, now).store;
    var newest := s'.reports[s'.lastReportId];
    assert newest in s'.reports.Values;
    var rows := List(s', Query(None, None)).body.rows;
    if forall k :: k in s.reports ==> s.reports[k].date != now && LexLe(s.reports[k].date, now) {
      var n :| 0 <= n < |rows| && rows[n] == newest;
      var first := rows[0];
      if n > 0 {
        assert LexLe(newest.date, first.date);
      } else {
        LexLeReflexive(now);
      }
      assert first in s'.reports.Values;
      var k :| k in s'.reports && s'.reports[k] == first;
      if k != s'.lastReportId {
        assert k in s.reports && first == s.reports[k];
        LexLeAntisymmetric(first.date, now);
      }
    }
  }

  /** Deleting the report just created restores the report table, but the
      id stays spent: the next report gets a different one. */
  lemma CreateDeleteKeepsIdSpent(s: Store, f: Submission, now: string, g: Submission, later: string)
    requires Valid(s) && Storable(f) && Storable(g) && s.lastReportId + 1 < MaxRowId
    ensures var created := Create(s, f, now).store;
      var id := created.lastReportId;
      var deleted := Delete(created, id).store;
      && deleted.reports == s.reports
      && Create(deleted, g, later).store.lastReportId != id
  {
    var created := Create(s, f, now).store;
    var deleted := Delete(created, created.lastReportId).store;
    assert deleted.reports.Keys == s.reports.Keys;
  }

  /** Two queries that select the same reports list them in the same order. */
  lemma {:induction false} FilterAgrees(rows: seq<Report>, q1: Query, q2: Query)
    requires forall x :: x in rows ==> (Selects(q1, x) <==> Selects(q2, x))
    ensures Filter(rows, q1) == Filter(rows, q2)
  {
    if rows != [] {
      FilterAgrees(rows[1..], q1, q2);
      assert rows[0] in rows;
    }
  }

  /** A non-empty student id decides the listing alone: the domain argument
      has no effect on it. */
  lemma StudentIdOverridesDomain(s: Store, studentId: string, d1: Option<string>, d2: Option<string>)
    requires Valid(s)
    requires studentId != ""
    ensures List(s, Query(Some(studentId), d1)) == List(s, Query(Some(studentId), d2))
  {
    FilterAgrees(Scan(s.reports), Query(Some(studentId), d1), Query(Some(studentId), d2));
  }

  /** The "All Reports" domain lists exactly what no filter at all lists,
      in the same order. */
  lemma AllReportsIsUnfiltered(s: Store, studentId: Option<string>)
    requires Valid(s)
    requires !Present(studentId)
    ensures List(s, Query(studentId, Some(AllReports))) == List(s, Query(None, None))
  {
    FilterAgrees(Scan(s.reports), Query(studentId, Some(AllReports)), Query(None, None));
  }
}
