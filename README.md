# Attendance store model

A Dafny model of the attendance store behind the desktop application's
commands (`src-tauri/src/commands.rs`) over the SQLite schema that
`init_db` creates (`src-tauri/src/db.rs`).

The store has two tables:

- `members`: id, optional name, role, prefect number.
- `attendance`: id, member id, date, timestamp, status.

The model keeps each table as a sequence of rows, held in the fields of a
`Store` object. Each command is a method of `Store`. `Store.Valid()` holds
the schema's constraints: primary keys on both tables, a UNIQUE prefect
number, NOT NULL columns as plain strings and a nullable name as an
`Option`. It also holds one rule the schema does not declare: at most one
attendance row per member and date. `mark_attendance` keeps that rule by
checking before it inserts. No other modelled command adds attendance
rows; `import_backup`, which is left out, replaces the whole file.
Foreign keys are declared, but the code issues no pragma to enforce them.
The model assumes SQLite's default of foreign keys off. So `Valid()` lets
an attendance row outlive its member.

Files:

- `wrappers.dfy`: Option and Result.
- `schema.dfy`: row types and the schema's constraints.
- `status.dfy`: the on-time rule.
- `queries.dfy`: member lookups, the existence check and the attendance
  listing as an inner join, with lemmas about the join.
- `commands.dfy`: the `Store` class and the helpers for UPDATE and DELETE.
- `scenarios.dfy`: short client runs of the commands.

Values from outside the store are method parameters:

- the calendar date, the RFC 3339 timestamp, and the hour and minute of the
  local clock. The source reads the clock three separate times, so the model
  takes these as independent values;
- freshly generated UUIDs. Preconditions say these ids are not already in
  use.

The listings return rows in table order. SQL gives no order because there
is no ORDER BY. The lemmas `JoinRowsMembership` and `JoinRowsDistinct`
describe the listings without relying on that order.

Two facts about the code are easy to miss:

- The duplicate check uses the member id plus the date. Role is not part of
  it, so the same prefect number under another role on the same day is
  refused.
- The status reads only the hour and the minute. Seconds are ignored, so
  07:00:59 is "Present".

A run of `mark_attendance` is not a transaction. When it creates a member
and the duplicate check then refuses the mark, the new member stays. The
contract of `Store.MarkAttendance` states the members table and the
attendance table separately for that reason. The model's freshness
precondition only keeps the new member id clear of current members. An
attendance row can outlive its deleted member, and a new member can reuse
that member's id. In that case the mark is refused and the new member
stays. A real UUID never repeats, so the source does not hit this case.

## Model

| member | source | states |
|---|---|---|
| `StatusRule.StatusFor` | src-tauri/src/commands.rs:62-68 | The status is "Present" or "Late". It is "Present" exactly when the hour is before 7, or the hour is 7 and the minute is 0. |
| `StatusRule.LateIffAfterSeven` | src-tauri/src/commands.rs:64 | On a real clock a mark is late exactly when it falls after minute 420 of the day. |
| `StatusRule.LateIsMonotone` | src-tauri/src/commands.rs:64 | A later time of the same day is never less late. |
| `StatusRule.Boundary` | src-tauri/src/commands.rs:62-68 | 06:59 and 07:00 are on time; 07:01 is late. |
| `Queries.FindByPrefect` | src-tauri/src/commands.rs:33-37 | The lookup by prefect number returns a member holding that number, and finds none exactly when no member holds it. |
| `Queries.FindById` | src-tauri/src/commands.rs:91-93 | The join's lookup returns a member with that id, and finds none exactly when no member has it. |
| `Queries.FindByIdUnique` | src-tauri/src/db.rs:29 | Because member ids are a primary key, a lookup by a member's id returns that very member. |
| `Commands.Store.Valid` | src-tauri/src/db.rs:27-47 | The invariant is the schema's keys plus one mark per member and date. It implies that one prefect number picks out at most one member, and that a member and date pick out at most one attendance row. |
| `Commands.MemberIdFor` | src-tauri/src/commands.rs:33-45 | The mark is filed under the id of the member holding the prefect number. When no member holds it, the mark is filed under the new member's id. |
| `Queries.HasMark` | src-tauri/src/commands.rs:49-53 | The EXISTS check: some attendance row, orphaned or not, has that member id and that date. The refusal clause of `Store.MarkAttendance` and `UncheckedMarkKeepsOnePerDay` rely on it. |
| `Queries.UncheckedMarkKeepsOnePerDay` | src-tauri/src/commands.rs:47-73 | A row that the existence check did not find can be appended without breaking one mark per member and date. |
| `Queries.JoinRows` | src-tauri/src/commands.rs:90-125 | The listing has no more records than there are attendance rows. Every record carries the prefect number and role of a member whose id it names. With a date filter, every record is on that date. |
| `Queries.JoinRowsSound` | src-tauri/src/commands.rs:91-94 | Every listed record pairs an attendance row that passes the date filter with the member whose id it names. |
| `Queries.JoinRowsComplete` | src-tauri/src/commands.rs:91-94 | Every such pair is listed. |
| `Queries.JoinRowsMembership` | src-tauri/src/commands.rs:90-114 | A record is listed if and only if it joins a row that passes the filter with its member. A row whose member is gone is not listed. |
| `Queries.JoinRowsDistinct` | src-tauri/src/db.rs:39 | No attendance row is listed twice. |
| `Queries.JoinRowsOnePerPrefectAndDate` | src-tauri/src/commands.rs:47-57 | With the store's invariant, no listing shows one prefect number twice on one date. |
| `Queries.ByDateIsAllOnDate` | src-tauri/src/commands.rs:90-125 | The listing for a date equals the full listing filtered to that date. |
| `Commands.ApplyUpdate` | src-tauri/src/commands.rs:187-193 | An UPDATE ... WHERE id keeps the row count and every row id. It patches only the rows with that id and leaves every other row as it was. |
| `Commands.ApplyUpdateAbsent` | src-tauri/src/commands.rs:186-194 | An update of an id that no member has changes nothing. |
| `Commands.ApplyUpdateInSequence` | src-tauri/src/commands.rs:186-194 | The three one-column updates, applied in order, equal one update of every column given. Omitted columns keep their values. |
| `Commands.ApplyUpdateKeepsKeys` | src-tauri/src/db.rs:29-32 | An update keeps member ids and prefect numbers unique unless it gives a prefect number to a second member. |
| `Commands.RemoveMember` | src-tauri/src/commands.rs:202 | Deleting keeps exactly the members whose id differs. It is the identity when no member has the id. |
| `Commands.RemoveMemberKeepsKeys` | src-tauri/src/commands.rs:202 | Deleting keeps both keys unique. It removes exactly one row when the id is present, and none otherwise. |
| `Commands.Store.constructor` | src-tauri/src/db.rs:27-47 | A new database has both tables, empty, and satisfies the invariant. |
| `Commands.Store.InitDb` | src-tauri/src/db.rs:27-64 | Running the schema creation again on existing tables changes no rows (IF NOT EXISTS). |
| `Commands.Store.MarkAttendance` | src-tauri/src/commands.rs:28-84 | An existing member is reused unchanged, its stored role neither checked nor updated. Otherwise one nameless member is added. A mark for that member on that date is refused and the attendance table is unchanged. Otherwise exactly one row is appended, with the clock's status. The reply echoes the caller's prefect number and role. The invariant is preserved. |
| `Commands.Store.GetAttendanceByDate` | src-tauri/src/commands.rs:86-115 | The result is the inner join of attendance with members, restricted to the date. |
| `Commands.Store.GetAllAttendance` | src-tauri/src/commands.rs:117-145 | The result is the inner join of attendance with members. |
| `Commands.Store.GetMemberList` | src-tauri/src/commands.rs:147-167 | The result is the members table. |
| `Commands.Store.CreateMember` | src-tauri/src/commands.rs:169-180 | A taken prefect number is refused and nothing changes. Otherwise one member is added under the fresh id, with a missing name stored as "". The invariant is preserved. |
| `Commands.Store.UpdateMember` | src-tauri/src/commands.rs:182-197 | The command fails exactly when a prefect number is given, the id exists and another member holds that number; then nothing changes. Otherwise only the row with that id changes, and only in the columns given. The invariant is preserved. |
| `Commands.Store.DeleteMember` | src-tauri/src/commands.rs:199-204 | Only that member's row is removed, and nothing is removed for an absent id. Attendance rows stay. |
| `Commands.Store.WipeAllData` | src-tauri/src/commands.rs:224-230 | Both tables are empty afterwards. |
| `Scenarios.MarkTwiceSameDay` | src-tauri/src/commands.rs:47-57 | A second mark of one prefect number on one day is refused. A mark at 07:00 is on time. |
| `Scenarios.MarkOnTwoDays` | src-tauri/src/commands.rs:32-68 | Marks on two days both succeed under one member; 07:01 is late. |
| `Scenarios.OtherRoleSameDay` | src-tauri/src/commands.rs:32-57 | The same prefect number under another role on the same day is refused, and the stored role is unchanged. |
| `Scenarios.ReplyEchoesCallerRole` | src-tauri/src/commands.rs:75-83 | The reply carries the caller's role, while the listing carries the member's stored role. |
| `Scenarios.DeleteThenMarkAgain` | src-tauri/src/commands.rs:199-204 | After a delete, the member's rows stay in the table but leave the listings. The prefect number can then be marked again that day under a new member. |
| `Scenarios.ReusedIdAfterDelete` | src-tauri/src/commands.rs:38-57 | A new member that reuses a deleted member's id is refused a mark on a date that member already had. The member insert stays. |

## Left out

- Commands.Store.DeleteMember: the model assumes that SQLite as built leaves foreign keys off, since the code issues no `PRAGMA foreign_keys`. A SQLite built to enforce them by default (a compile-time option) makes deleting a member that has attendance rows fail with a FOREIGN KEY error. The model does not capture that failure, and in such a build `Scenarios.DeleteThenMarkAgain` and `Scenarios.ReusedIdAfterDelete` cannot happen.
- `export_backup` and `import_backup` (src-tauri/src/commands.rs:206-222): they read or write the database file whole and convert it with a library base64 codec. That is file I/O and foreign code, with no logic of the store's own. An imported file replaces both tables, and the model does not re-establish `Store.Valid()` for it: the keys and the one-mark-per-day rule are only assumed of an imported database.
- `get_db_path` and the connection plumbing (src-tauri/src/db.rs:6-25, 69-72): directory creation, path joining, opening SQLite and the WAL pragma are I/O.
- The `backups` and `settings` tables (src-tauri/src/db.rs:49-64): they are created, but no command reads or writes them.
- Driver failures: any `map_err(... to_string())` error from SQLite, including per-row errors in the listing loops, is I/O and is not modelled. The panic when `mark_attendance` fails to insert a member becomes the precondition that the new member id is fresh.
- Error text: the errors are constructors (`AlreadyMarked`, `DuplicatePrefectNumber`). The model does not build the message strings that the source or SQLite formats.
- The clock and UUID generation: these values are parameters. Time zones and date formatting are not modelled.
- `get_app_version` and `check_for_updates` (src-tauri/src/commands.rs:232-241): a package-metadata read and a stub that always answers false.
- `src-tauri/src/main.rs`: plugin and handler wiring only.
