# User accounts behind the quiz/monitoring endpoint

This project models the `users` table used by the single JSON endpoint
`backend/api.php` of a parental-control quiz application. Students and
parents register or are created there. They log in by username and password
or, for students, by device id. Parents list their children with today's quiz
activity and can log a child out remotely. A student's device polls to learn
whether its session is still active.

The model holds the table as a sequence of `User` rows in insertion order,
together with the auto-increment counter for ids:

- `php_trim.dfy`, module `PhpTrim`: PHP's `trim` with its default character
  list (space, tab, line feed, carriage return, NUL, vertical tab). Every
  request field goes through it before it is checked or stored.
- `users.dfy`, module `Users`: the row type, the response type (status,
  HTTP code, message, payload), and the single-table lookups
  (`SELECT … WHERE … LIMIT 1` becomes the first matching row in table order).
  It also holds the table invariant: ids come from the counter and rise in
  table order, usernames are pairwise distinct, and parent references are
  positive ids.
- `sessions.dfy`, module `Sessions`: the read-only actions `login_student`
  and `check_session_status`, as functions of the table.
- `daily_logs.dfy`, module `DailyLogs`: `get_my_children`, as a function of
  the table, the `daily_logs` rows and the current calendar day.
- `accounts.dfy`, module `Accounts`: class `UserTable` with fields `rows` and
  `nextId`. It has one method per action that writes to the table:
  `register_student`, `register_parent`, `create_child_account`,
  `login_student_manual` and `remote_logout_student`. Each method requires and
  keeps the table invariant. Its postcondition says, for each error case, which
  response comes back with the table unchanged. For success it gives the one
  appended row or the one updated field exactly. Two client methods then run
  a parent/child sequence of actions and state its outcome.

Request fields are parameters that have already been decoded. A field the
request leaves out is passed as `""`, which is what `?? ''` gives. Ids are
`int`s, mirroring the `(int)` casts.

Notes on the code's behaviour, which the model follows:

- `logged_today` is the `COUNT(*)` of today's logs (a number), not a boolean.
- Device ids are not unique. `register_student` and `login_student_manual` bind
  a device without checking whether another row already holds it. So
  `login_student` returns *some* student bound to the device, not "the unique"
  one.
- `remote_logout_student` clears only `device_id`. The schema scripts
  backend/update_db_requests.php:19-21 and backend/update_remote_db.php:16-18
  add a `request_status` column (an enum of exit/unlock request states) to
  `users`, but backend/api.php never reads or writes it. No file has a
  `parent_message` column, and no action implements an exit/unlock approval
  workflow. The column is therefore not part of the `User` row.
- The errors of `login_student_manual` and `login_student` are sent with HTTP
  code 200.
- `create_child_account` does not check that `parent_id` names an existing
  parent. It only requires the id to be positive.

## Model

| member | source | states |
|---|---|---|
| `PhpTrim.Trim` | backend/api.php:61-66 | the trimmed value is no longer than the input and has no strippable character (space, `\t`, `\n`, `\r`, NUL, vertical tab) at either end |
| `PhpTrim.BlankIffAllTrimChars` | backend/api.php:68-70 | a field fails the `=== ''` check after trimming exactly when every character of it is strippable |
| `PhpTrim.TrimPadded` | backend/api.php:61-66 | for any strippable prefix and suffix around a core with no strippable ends, trimming returns exactly the core (an independent characterisation of `trim`) |
| `PhpTrim.TrimKeepsTrimmed` | backend/api.php:61-66 | a value with no strippable ends is its own trim |
| `Users.FirstWhere` | backend/api.php:136-138 | `SELECT … WHERE cond LIMIT 1`: the result is a row satisfying the condition with no earlier row satisfying it; it is absent exactly when no row satisfies it |
| `Users.ParentIdFor` | backend/api.php:78-84 | the parent link of a new student is the id of a row whose username is the trimmed `parent_username` and whose type is parent; it is absent, with no error, exactly when that name is blank or no such parent row exists |
| `Users.LookupsAreUnique` | backend/api.php:225-229 | under the table invariant, ids are unique, and the lookups by id and by username find the one row that has that id or username |
| `Users.UsernameIndexFindsUse` | backend/api.php:72-76 | the `SELECT id FROM users WHERE username = ?` check finds nothing exactly when the username is not in use |
| `Users.InsertKeepsInvariant` | backend/api.php:87-91 | inserting a row with the next auto-increment id, an unused username and a positive or absent parent keeps ids rising and usernames pairwise distinct, with the counter advanced |
| `Users.UpdateKeepsInvariant` | backend/api.php:151 | an update that leaves a row's id, username and parent unchanged (the `device_id` updates) keeps the table invariant |
| `Sessions.LoginStudent` | backend/api.php:163-177 | a blank trimmed device id gives "No device ID". Otherwise, when some student row holds the trimmed device id, the result is a success carrying a row of type student whose device id equals it; when none does, the result is "Not found". No other error is possible, a parent is never returned, every response has code 200, and the function reads the table without changing it |
| `Sessions.CheckSessionStatus` | backend/api.php:235-248 | the answer is always `active` or `logged_out` with code 200. With unique ids it is `active` exactly when the row with that id exists, the trimmed device id is not blank, and the stored device id is set and equal to it |
| `Sessions.UnboundStudentIsLoggedOut` | backend/api.php:239-247 | when no row with the student's id holds a device, every poll answers `logged_out`, and no automatic login returns that student |
| `DailyLogs.LogsOn` | backend/api.php:185 | `logged_today` is the number of `daily_logs` rows whose student id and date are the given ones (the size of the set of their positions); so it is zero exactly when the student has no log dated today, and it never exceeds the number of logs |
| `DailyLogs.LatestLog` | backend/api.php:186 | finds one of the student's logs with a date no other log of that student exceeds; it is absent exactly when the student has no log |
| `DailyLogs.LastScore` | backend/api.php:186 | `last_score` is absent exactly when the student has no log; otherwise it is the score of one of the student's logs with the latest date |
| `DailyLogs.ChildRows` | backend/api.php:187 | `WHERE u.parent_id = ?` selects exactly the rows whose parent is the given id, as many as there are such rows in the table |
| `DailyLogs.GetMyChildren` | backend/api.php:181-191 | the result has one summary per row whose `parent_id` is the given id (as many as there are such rows). Every summary belongs to such a row and is built from that row's columns, the count of today's logs and the last score, and every such row has its summary in the result |
| `DailyLogs.NoChildrenOfNonPositiveId` | backend/api.php:182-187 | under the table invariant, a missing or non-positive `parent_id` (cast to 0 or below) lists no child |
| `Accounts.UserTable.RegisterStudent` | backend/api.php:60-101 | A blank trimmed field among the five required ones gives 400 and leaves the table unchanged; so does a username already in use. Success happens exactly when neither holds, and then exactly one student row is appended with the next id, the trimmed fields, the given device and `ParentIdFor` as parent. The counter advances, the response echoes the new id and fields, and the invariant (unique usernames) is kept |
| `Accounts.UserTable.RegisterParent` | backend/api.php:104-125 | a blank name, username or password, or a username in use, gives 400 and leaves the table unchanged. Otherwise exactly one parent row is appended with no grade, device or parent. The response carries the new id and username, and usernames stay distinct |
| `Accounts.UserTable.CreateChildAccount` | backend/api.php:195-218 | a non-positive parent id or a blank field gives 400 and leaves the table unchanged; so does a username in use. Otherwise exactly one student row is appended with `parent_id` equal to the given id (not checked to be a parent) and no device, the response is success with "added", and usernames stay distinct |
| `Accounts.UserTable.LoginStudentManual` | backend/api.php:128-160 | a blank username, an unknown username or a stored password not exactly equal to the trimmed input gives an error with code 200 and leaves the table unchanged. On success, for a row of either type, only that row's device id changes, and only when the trimmed device is not blank. The updated row is returned, and a poll from that device then answers `active` |
| `Accounts.UserTable.RemoteLogoutStudent` | backend/api.php:221-232 | 403 with nothing changed unless a row has this id and `parent_id` equal to the parent id. Otherwise only the device id of the row with that id becomes null and every other field and row stay as they were. Every later poll for the student answers `logged_out`, and no automatic login returns it |
| `Accounts.SetUpFamily` | backend/api.php:195-218 | a `register_parent` on an empty table followed by a `create_child_account` naming that parent's id yields exactly the parent row with id 1 and the child row with id 2 linked to it |
| `Accounts.ParentChildScenario` | backend/api.php:221-248 | for any clean field values, the sequence register parent, create child, manual login of the child on a device, a refused second registration of the child's username, and the parent's remote logout ends with a valid table in which that device's poll answers `logged_out` and automatic login on that device finds nobody |

## Left out

- The PDO connection and its credentials (backend/api.php:34-47) are storage I/O.
- The response headers and the OPTIONS preflight (backend/api.php:3-15) are HTTP I/O.
- Request decoding (`get_input_data`, backend/api.php:23-29) and JSON encoding (`respond`, backend/api.php:17-21) are I/O too. The model takes decoded fields as parameters and returns a `Response` value.
- The dispatch on `action` is not modelled as a function. The empty-action 400 (backend/api.php:53-55) and the unknown-action 400 (backend/api.php:329-330) are not modelled. Each reachable case is its own method or function.
- Storage failures are not modelled. These are the `catch` branches that answer 500 with the exception text (backend/api.php:97-99, 121-123, 214-216). The model's inserts and updates always succeed.
- `get_quiz` and `submit_quiz` (backend/api.php:252-264) are stubs that return constant successes, and nothing in the endpoint writes `daily_logs`.
- `check_update` (backend/api.php:310-327) returns constant configuration.
- The second `create_child_account` case (backend/api.php:269-306) is unreachable. The first case with that name always answers and exits.
- Clock reads (`NOW()`, `CURDATE()`) are not modelled. The day is a parameter of `get_my_children`, and `created_at` columns are not modelled.
- The `details` and `created_at` columns of `daily_logs` are not read by any modelled action.
- Username and device-id equality is exact. The username lookups and `login_student`'s `WHERE device_id = ?` (backend/api.php:167) compare in SQL under the column's collation; MySQL's default collations compare case-insensitively and ignore trailing spaces, and that is not modelled. `check_session_status` instead compares the stored device id with PHP's `===` (backend/api.php:243), which is exact. Under a case-insensitive collation the two can disagree: a device id differing only in case could log in automatically yet be told `logged_out`. The model makes both comparisons exact, so it does not show that disagreement.
- Where a query has no `ORDER BY`, the model returns the first matching row in insertion order. The database does not promise any order there. Usernames and ids are unique, so those lookups do not depend on it. For `login_student` with a shared device id, the contract claims only *some* matching student.
- DailyLogs.LastScore: among several logs of the same latest date, `ORDER BY log_date DESC LIMIT 1` does not fix which one is chosen. The contract claims only a score from one of them.
- Response messages are constructors, not the source's (mostly Arabic) texts. The three wordings of "username taken" share one constructor.
- Response payloads are simplified. `register_student` echoes id, name, username, grade, type and device (`NewStudent`). `register_parent` echoes id and username (`NewParent`). The manual and device logins return the whole row (`SELECT *`, password column included), and so does the model.
- A parent's `grade_level` is the column default, modelled as absent. The table schema is not part of this model.
- Concurrent requests are not modelled. The source does no locking between the username check and the insert. Requests are modelled one at a time.
- backend/import_questions.php, the schema scripts (backend/migrate_schema.php, backend/update_db_requests.php, backend/update_remote_db.php) and the Android files are not part of this model. They are data loading, DDL and an OS lock-task bridge.
