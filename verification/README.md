# Civic-issue reporting backend — Dafny model

This project models the request handlers of a small civic-issue reporting
web service. Students register, log in and submit reports about problems on
campus (a type such as "Cleanliness" or "Maintenance", a location, a
description, an optional image). Administrators list the reports for their
domain, change a report's status (stamping a resolution date when it becomes
"Resolved") and delete reports. The service keeps everything in two SQLite
tables, `users` and `reports`.

The model replaces the database with an immutable value `Store.Store`:

- `users`: a map from user id (the primary key) to `User`;
- `reports`: a map from report id to `Report`;
- `lastReportId`: the AUTOINCREMENT counter SQLite keeps for `reports`. It
  is needed to state that ids are never reused after a delete.

`Store.Valid` holds what the database itself guarantees: every row is stored
under its own key, and every report id lies between 1 and the counter, which
stays within the 64-bit rowid range. Every handler is a pure function from a
valid store and the request's fields to a `Response`. A response holds the
HTTP status code, the JSON body and the store afterwards.

Python's truthiness is modelled on purpose. A JSON field or query argument
is an `Option<string>`: absent and `null` are `None`, and an empty string is
`Some("")`. `Wrappers.Present` is true exactly when a bare `if x` in the
handler would pass. Two places do not test truthiness. Login matches id
and password with SQL equality, where a missing value binds NULL and matches
nothing; it does apply truthiness to the optional role. Report creation
stores empty strings as they come, and only a missing value in a NOT NULL
column fails.

Listing sorts by `date` descending. SQLite compares TEXT with its BINARY
collation, which on Unicode strings is lexicographic order by code point;
`TextOrder.LexLe` is that order, proved total, reflexive, antisymmetric and
transitive. SQLite does not specify the order of rows with equal dates.
So the listing is specified as a permutation that is non-increasing by date,
and insertion sort is one implementation of it.

Modules: `Wrappers` (optional values, truthiness), `TextOrder` (collation),
`Store` (tables, invariant, replies), `Auth` (register, login,
forgot-password), `Rows` (scan order, sort, distinctness), `Reports`
(create, list, update status, delete), `Api` (routing of one request and of
a sequence of requests).

Because the handlers test fields with Python truthiness:

- Forgot-password answers 400 when the email is absent *or empty*.
- The status update answers 400 when the status is absent *or empty*.
- Login refuses a role only when the supplied role is non-empty.

## Model

| member | source | states |
|---|---|---|
| Wrappers.AllPresent | app.py:41 | `all([...])` over optional strings is true exactly when every field is present and non-empty |
| TextOrder.LexLeReflexive | app.py:142 | every date sorts equal to itself under the collation `ORDER BY date` uses |
| TextOrder.LexLeTotal | app.py:142 | any two dates are comparable under the BINARY collation |
| TextOrder.LexLeAntisymmetric | app.py:142 | two dates that each sort at or before the other are the same text |
| TextOrder.LexLeTransitive | app.py:142 | the collation is transitive, so a descending sort is well defined |
| TextOrder.PrefixSortsFirst | app.py:142 | a text sorts at or before every extension of it (shorter prefix first) |
| Store.Empty | setup_db.py:8-33 | a freshly initialised database has empty tables, counter 0, and satisfies the store invariant |
| Auth.Register | app.py:31-54 | 400 iff one of id, password, name, role is missing or empty; 409 iff all are present and the id is taken; no change on either error; on 201 exactly one user is added with the given fields, every other user and every report is unchanged |
| Auth.Login | app.py:56-81 | 401 iff no row has both the given id and password; 403 iff a row matches and a non-empty supplied role differs from its role; otherwise 200 with that row's id, name, role and domain only; the store never changes |
| Auth.ForgotPassword | app.py:83-103 | 400 iff the email is missing or empty; 404 iff it is given and no user has it; otherwise 200 with the "Password sent to" message; the store never changes |
| Auth.RegisterThenRecover | app.py:88-100 | after a registration with a non-empty email, forgot-password for that email answers 200 |
| Auth.RegisterThenLogin | app.py:44-79 | after a successful registration, logging in with the same id and password and no role succeeds and returns exactly the registered profile |
| Auth.RegisterThenLoginWithRole | app.py:64-79 | after registering, supplying the registered role logs in and supplying any other non-empty role is refused with 403 |
| Auth.RegisterTwiceConflicts | app.py:44-51 | registering an id a second time is refused with 409, whatever non-empty password, name and role it carries |
| Auth.RegisterLeavesOtherLogins | app.py:44-81 | a registration does not change the reply to a login for any other id |
| Rows.KeysAscending | app.py:144 | the rowids of a table in strictly ascending order, exactly the table's keys |
| Rows.Scan | app.py:128 | `SELECT * FROM reports` yields every stored report once, in ascending id order |
| Rows.Insert | app.py:142 | inserting a row into a date-descending list keeps it date-descending and adds exactly that row |
| Rows.SortByDateDesc | app.py:142 | `ORDER BY date DESC` yields a permutation of its input that is non-increasing by date |
| Reports.Create | app.py:109-122 | 201; exactly one report is added, under the next AUTOINCREMENT id, which exceeds every existing id; it has the submitted fields, status "Pending", the supplied timestamp and no resolution date; users and existing reports are unchanged |
| Reports.Filter | app.py:128-141 | the rows kept are exactly the input rows the WHERE clause selects |
| Reports.FilterDistinct | app.py:144-147 | filtering rows without repeats yields rows without repeats |
| Reports.List | app.py:124-148 | 200 and no change; a non-empty student id selects that student's reports and ignores the domain; otherwise "Cleanliness"/"Maintenance" select by type, another non-empty domain except "All Reports" selects by location, and anything else selects all; the result has no repeated id and is non-increasing by date |
| Reports.UpdateStatus | app.py:160-176 | a missing or empty status gives 400 and no change; otherwise 200, the report's status is set, its resolution date becomes the supplied date exactly for "Resolved" and is otherwise kept, its other fields and every other report and user are unchanged, including when the id does not exist |
| Reports.Delete | app.py:154-158 | 200; the report with that id is gone if it existed, every other report, every user and the AUTOINCREMENT counter are unchanged |
| Reports.DeleteIdempotent | app.py:154-158 | deleting twice gives the same reply and store as deleting once |
| Reports.UpdateIdempotent | app.py:164-174 | repeating a status update with the same status and date changes nothing further |
| Reports.ResolutionDateSticks | app.py:164-170 | after "Resolved", a change to any other non-empty status keeps the resolution date |
| Reports.UpdatesCommute | app.py:168-170 | status updates of two different reports give the same store in either order |
| Reports.CreateThenListNewestFirst | app.py:116-142 | a new report appears in the unfiltered listing, and is listed first when its timestamp is later than every stored date |
| Reports.CreateDeleteKeepsIdSpent | app.py:118-155 | deleting a just-created report restores the report table, yet the next report gets a different id |
| Reports.FilterAgrees | app.py:131-141 | queries that select the same rows give the same filtered rows in the same order |
| Reports.StudentIdOverridesDomain | app.py:131-133 | with a non-empty student id, the listing is identical whatever domain is supplied |
| Reports.AllReportsIsUnfiltered | app.py:134-141 | without a student id, domain "All Reports" lists exactly what no filter lists, in the same order |
| Api.Step | app.py:31-176 | every handler keeps the store invariant; login, forgot-password and listing never change the store; every error reply leaves the store unchanged; no user row is ever changed or removed; the report counter rises by at most one and no report appears under an old unused id |
| Api.Run | app.py:31-176 | over any sequence of requests the store stays valid, existing users stay as they are, and every report present at the end existed at the start or has an id above the starting counter |
| Api.RunFromEmpty | setup_db.py:20-33 | starting from freshly created tables, every report id after any sequence of requests lies between 1 and the number of requests |
| Api.DeletedIdNeverReused | setup_db.py:22 | once a report id at or below the counter is deleted, no later sequence of requests brings it back |

## Left out

- Flask routing, CORS and the static file routes (`/` and `/<path>`). They are framework plumbing with no decisions to model.
- SQL text, connections, commits and closes. The tables are abstract maps; each handler's statements take effect together.
- The clock. The creation timestamp and the resolution date are parameters, and their format is not checked.
- The password printed by forgot-password. It is a logging side effect only; which of several users sharing an email is found affects nothing else.
- The schema and migration scripts. Their constraints appear only as datatypes and `Store.Valid`: primary keys, NOT NULL columns, nullable email and domain, and the AUTOINCREMENT counter. The email column is always present.
- JSON values that are not strings (numbers, booleans, lists). Every field is an optional string, so Python truthiness of `0` or `false` is not modelled.
- A missing or malformed JSON body. The framework raises before the handler's logic runs.
- Reports.Create: a submission with a missing student id, type or location is excluded by a precondition (`Storable`). So is a full AUTOINCREMENT counter. In both cases the storage layer raises an error the handler does not catch.
- Reports.UpdateStatus and Reports.Delete: a path id above the 64-bit rowid range makes the database driver raise before the store is reached; the model accepts any natural number.
- Api.Run: requires room for one new id per request, which is sufficient but not necessary, since only submissions use ids.
- Concurrency between requests. Each request is modelled as one atomic step.
