# Faculty management store

A model of the record store behind a small Flask application for managing
faculty records (`facultymanage/app.py`). The application keeps three SQLite
tables: `faculty`, `users` and `notifications`. Its routes add, update, delete
and list faculty by department. Users sign up and opt in or out of
notifications. Adding a faculty member sends a notification to a fixed
administrator address and to every opted-in user, then writes one audit record.

The model has one class and some pure modules:

- `Records` holds the row types, the `Result`/`Error` outcomes, and `IndexOf`, the
  first-match search behind every lookup by one column.
- `FacultyTable` holds the faculty table as a sequence of rows in id (rowid) order. It has the queries
  (`Where`, `ByDepartment`, `Departments`, `FindById`) and the effect of each write in SQL's
  own terms. REPLACE deletes every row that clashes on the primary key or on
  the UNIQUE email, then inserts in rowid order. `UPDATE` rewrites the rows whose id matches.
  `DELETE` keeps the rows that fail the `WHERE`. Lemmas show these equal
  the simpler shapes the methods compute: append, overwrite at one index, cut one row.
- `UserTable` holds the users table: its UNIQUE constraints, the opt-in query and the
  settings statement.
- `Dispatch` holds the notification: the subject, the administrator address, the body
  template, the send order, and how far a run of sends gets when the transport fails.
- `Store.Store` is the database as an object. It has the three tables and one
  AUTOINCREMENT counter per table, the `sqlite_sequence` value, meaning the largest id
  that table has issued. Each route that writes is a method that changes
  only the fields in its `modifies` frame. A ghost set records every faculty id
  ever issued. `Valid()` keeps these invariants:
  - ids ascend in every table;
  - faculty emails are unique;
  - usernames and user emails are unique;
  - flags are 0/1;
  - every audit record is an administrator copy with subject "New Faculty Added".

The mail transport is an oracle parameter `mailer: nat -> bool`. `mailer(j)` says
whether the `j`-th send call of one dispatch succeeds. Call 0 is the
administrator's copy. The stored password is the hash string the route computes,
taken as an opaque parameter.

Three consequences of the code shape the model:

- The sends and the audit insert share one `try` block (app.py:67-92). The first
  failed send therefore aborts the remaining sends, the error is swallowed, and no
  audit record is written.
- The DDL declares `email TEXT UNIQUE` (app.py:32). An update that gives a row
  another row's email therefore fails with a constraint error and changes nothing.
- Only the add route calls the dispatcher (app.py:170). An update never sends a
  notification.

## Model

| member | source | states |
|---|---|---|
| `Records.IndexOf` | facultymanage/app.py:165-166 | a lookup on one column (the add route's sub-select on email, and the lookups by id at lines 183 and 236): the first row matching, with no match before it, or the table length when no row matches |
| `Store.Store.Valid` | facultymanage/app.py:28-48 | the table constraints every route keeps: ids ascend and lie in 1..counter in each table; faculty emails, usernames and user emails are unique; flags are 0 or 1; every faculty id was issued; every audit record is an administrator copy |
| `FacultyTable.FindById` | facultymanage/app.py:183-186 | the update route's lookup finds nothing exactly when no row has the id; otherwise it returns a row of the table with that id |
| `FacultyTable.Where` | facultymanage/app.py:204 | a WHERE selection holds exactly the rows satisfying the condition, and no more rows than the table |
| `FacultyTable.ReplaceInto` | facultymanage/app.py:165 | after `INSERT OR REPLACE` the inserted row is in the table, which grows by at most one row |
| `FacultyTable.ReplaceIntoRows` | facultymanage/app.py:29-32 | REPLACE deletes exactly the rows that clash with the new row on the primary key or on the UNIQUE email: every other old row survives, and nothing else is added |
| `FacultyTable.UpsertRow` | facultymanage/app.py:165-167 | the row the add route writes carries the submitted name, department and email; with an unused email its id is the next AUTOINCREMENT value |
| `FacultyTable.Upsert` | facultymanage/app.py:165-167 | the table after an add contains the row written |
| `FacultyTable.IssuedAfterUpsert` | facultymanage/app.py:29 | the AUTOINCREMENT counter never goes down, covers the id written, and advances by at most one per add |
| `FacultyTable.UpsertFresh` | facultymanage/app.py:165-167 | an add with an unused email appends exactly one row; its id is the AUTOINCREMENT value one past every id issued so far; the counter advances; the table stays well formed |
| `FacultyTable.UpsertExisting` | facultymanage/app.py:165-167 | an add with an email held by row k keeps that row's id and position and replaces name and department; the row count, every other row and the counter are unchanged |
| `FacultyTable.UpsertWellFormed` | facultymanage/app.py:28-32 | after any add, ids still ascend, emails are still unique, every id was issued, and the row written is in the table |
| `FacultyTable.UpsertLastWins` | facultymanage/app.py:165-167 | two adds with the same email leave the table and counter as a single add with the later values would; with equal values, add is idempotent |
| `FacultyTable.EmailHeldByOther` | facultymanage/app.py:32 | an UPDATE of row `id` to `email` breaks the UNIQUE constraint exactly when some row with another id already holds that email |
| `FacultyTable.SetById` | facultymanage/app.py:193-194 | the UPDATE keeps the row count and every id; rows with another id are untouched; a row with the id carries the three new fields; rowid order is kept |
| `FacultyTable.UpdateAt` | facultymanage/app.py:193-194 | an UPDATE by id that passes the UNIQUE check overwrites name, department and email of that one row and keeps its id; no other row changes; the table stays well formed |
| `FacultyTable.Delete` | facultymanage/app.py:204 | the DELETE keeps exactly the rows with another id |
| `FacultyTable.DeleteAt` | facultymanage/app.py:204 | deleting the id of row k removes exactly that row, keeps the others in order, and keeps the table well formed |
| `FacultyTable.DeleteMissing` | facultymanage/app.py:204 | deleting an id no row has leaves the table unchanged |
| `FacultyTable.ByDepartment` | facultymanage/app.py:213 | the department query returns exactly the rows of that department |
| `FacultyTable.Departments` | facultymanage/app.py:105-106 | the distinct-department query lists a department exactly when some row has it, and lists each only once |
| `FacultyTable.DepartmentCountsSum` | facultymanage/app.py:101-110 | summing the department listings over the distinct departments gives the row count on the home page |
| `UserTable.Taken` | facultymanage/app.py:37-39 | an insert breaks a UNIQUE constraint exactly when some user already holds the username or the email |
| `UserTable.SignupWellFormed` | facultymanage/app.py:35-40 | a signup that passes the UNIQUE checks appends a user with the next id and flag 1, and keeps ids ascending and usernames and emails unique |
| `UserTable.OptedInEmails` | facultymanage/app.py:76 | the opt-in query returns an email exactly when some user with flag 1 holds it |
| `UserTable.OptedInEmailsSnoc` | facultymanage/app.py:76-79 | the opt-in query lists addresses in table order, one per opted-in user: a user appended to the table adds their address at the end exactly when their flag is 1 |
| `UserTable.OptedOutExcluded` | facultymanage/app.py:76 | with unique emails, a user whose flag is not 1 is not among the opted-in addresses |
| `UserTable.SetFlag` | facultymanage/app.py:243-244 | the settings UPDATE keeps the row count and every user's id, username, password and email; users with another id are untouched; a user with the id carries the new flag |
| `UserTable.SetFlagAt` | facultymanage/app.py:241-244 | the settings statement rewrites only that user's flag, to 1 when ticked and 0 otherwise; that user is opted in exactly when ticked; every other user keeps their opt-in state |
| `Dispatch.Body` | facultymanage/app.py:54-65 | the composed body carries name, department and email verbatim at positions fixed by the template, and its length is the template's plus the three fields' |
| `Dispatch.Recipients` | facultymanage/app.py:69-83 | the send order: the administrator first, then exactly the addresses of users whose flag is 1 (their order and multiplicity are `RecipientsSnoc`'s) |
| `Dispatch.RecipientsSnoc` | facultymanage/app.py:76-83 | the users after the administrator are sent to in table order, each opted-in user once: a user appended to the table is sent to last exactly when their flag is 1 |
| `Dispatch.FirstFailure` | facultymanage/app.py:67-92 | the first failing send call: all earlier calls succeed, and it fails unless it is the end |
| `Dispatch.Attempted` | facultymanage/app.py:79-92 | the sends form a prefix of the recipient list and stop only after a failure; the whole list is reached exactly when every send succeeds |
| `Dispatch.AttemptedStopsAt` | facultymanage/app.py:79-92 | when calls before k succeed and call k fails, exactly the first k+1 recipients are tried |
| `Dispatch.OptedOutGetsNothing` | facultymanage/app.py:69-83 | a user whose flag is not 1 is never sent a copy, whatever the transport does, unless their address is the administrator's |
| `Dispatch.AllDeliveredReachesEveryone` | facultymanage/app.py:69-83 | when every send succeeds, the administrator gets the first copy and every opted-in user gets one |
| `Dispatch.OptOutStopsDelivery` | facultymanage/app.py:241-244 | after settings clears a user's flag, no later dispatch sends to them |
| `Store.Store.constructor` | facultymanage/app.py:25-48 | a new database has three empty tables and counters at zero |
| `Store.Store.InsertOrReplaceFaculty` | facultymanage/app.py:163-167 | the upsert keyed on email. Existing email: same id, row overwritten in place, counter and issued ids unchanged. New email: one row appended with an id above every id ever issued, deleted ones included |
| `Store.Store.SendNotificationEmail` | facultymanage/app.py:51-92 | admin first, then each opted-in user in table order; the first failure stops the sends and is swallowed; exactly one audit record (subject, composed body, admin recipient) is appended when every send succeeds, none otherwise; no other table changes |
| `Store.Store.AddFaculty` | facultymanage/app.py:163-170 | the add route: the upsert as in `InsertOrReplaceFaculty` (existing email: same id, overwritten in place, counter and issued ids unchanged; new email: appended with an id above every id ever issued), whatever the sends do; the audit log and its counter grow by one record exactly when all sends succeed |
| `Store.Store.UpdateFaculty` | facultymanage/app.py:182-195 | a missing id gives not-found; another row holding the email gives a constraint error. Both leave the table unchanged. In every other case the update succeeds: that row's three fields are overwritten in place with the id kept. Users and notifications are untouched |
| `Store.Store.DeleteFaculty` | facultymanage/app.py:203-204 | removes the row with the id when there is one; otherwise a silent no-op; no other row changes |
| `Store.Store.Home` | facultymanage/app.py:99-110 | returns every row, the distinct departments and the row count, which equals the number of rows the department pages list together |
| `Store.Store.DepartmentFaculty` | facultymanage/app.py:212-214 | returns the rows of one department in table order |
| `Store.Store.Signup` | facultymanage/app.py:139-145 | a taken username or email fails with a constraint error and adds no user; otherwise one user is appended with the next id and the opt-in flag 1 |
| `Store.Store.Settings` | facultymanage/app.py:235-245 | stores 1 or 0 in the flag of the session's user only. It returns that row as read before the write. An unknown user id changes nothing |

## Left out

- Flask routing, redirects, `flash` messages, HTTP status codes and templates: these are presentation only.
- Session and login checks: every operation is treated as already authorised. The login route is not part of this model, because it rests on `check_password_hash`.
- Password hashing (`generate_password_hash`) is a foreign cryptographic call. The hash is an opaque string parameter.
- Mail server configuration and the real `mail.send`: replaced by the `mailer` oracle. `print` logging is dropped.
- `view_notifications` is left out. Its `ORDER BY date_sent DESC` and the `date_sent` column depend on the wall clock.
- SQLite itself: opening the database file and running the DDL. Each statement is modelled as one atomic step. Requests run one at a time, with no concurrency between them.
- The update route reads the row and writes it over two connections. The model does both in one step, so the window between them is not modelled.
- A failure of the audit `INSERT` itself, inside the same `try`, is not modelled. Only transport failures are.
- Settings for a session id that no user has: the route's POST fails with a TypeError at `user[0]` (app.py:244), a server error that writes nothing. The model returns `Err(NotFound)` and changes nothing, so it keeps the outcome (no write) but not the crash.
- A form field missing from a request (Flask answers 400) is not modelled: every operation receives all its fields.
- Ids are unbounded naturals. SQLite's 64-bit rowid limit, where AUTOINCREMENT fails with SQLITE_FULL, is not modelled.
- The GET views of the update and settings routes are modelled only as the lookups they run (`FindById`, `IndexOf`), not as what they render.
- `logout` is left out because it only touches the session.
