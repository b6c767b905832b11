/**
 * The two tables that `init_db` creates and the commands use, with the
 * constraints the schema declares on them.
 *
 * A table is a sequence of rows. Columns declared NOT NULL are plain
 * strings; the one nullable column, `members.name`, is an Option.
 */
module Schema {
  import opened Wrappers

  /** A row of `members`: id (PRIMARY KEY), name (nullable), role (NOT NULL),
      prefect_number (UNIQUE NOT NULL). */
  datatype Member = Member(id: string, name: Option<string>, role: string, prefectNumber: string)

  /** A row of `attendance`; every column is NOT NULL. `memberId` is declared
      as a foreign key, but `init_db` issues no pragma to enforce it. The
      model assumes SQLite's default of foreign keys off, so a row may name
      a member that no longer exists. */
  datatype AttendanceRow = AttendanceRow(id: string, memberId: string, date: string, timestamp: string, status: string)

  /** members.id is the primary key. */
  predicate UniqueMemberIds(members: seq<Member>) {
    forall i, j :: 0 <= i < j < |members| ==> members[i].id != members[j].id
  }

  /** members.prefect_number is UNIQUE. */
  predicate UniquePrefectNumbers(members: seq<Member>) {
    forall i, j :: 0 <= i < j < |members| ==> members[i].prefectNumber != members[j].prefectNumber
  }

  /** attendance.id is the primary key. */
  predicate UniqueRowIds(rows: seq<AttendanceRow>) {
    forall i, j :: 0 <= i < j < |rows| ==> rows[i].id != rows[j].id
  }

  /** The constraints the schema itself enforces. */
  predicate SchemaValid(members: seq<Member>, rows: seq<AttendanceRow>) {
    UniqueMemberIds(members) && UniquePrefectNumbers(members) && UniqueRowIds(rows)
  }

  /** The rule `mark_attendance` keeps by checking before it inserts: no two
      attendance rows share a member and a date. The schema has no such
      constraint; it holds because every command that adds a row checks it. */
  predicate OneMarkPerDay(rows: seq<AttendanceRow>) {
    forall i, j :: 0 <= i < j < |rows| ==>
      !(rows[i].memberId == rows[j].memberId && rows[i].date == rows[j].date)
  }

  predicate MemberIdInUse(members: seq<Member>, id: string) {
    exists m :: m in members && m.id == id
  }

  predicate PrefectNumberTaken(members: seq<Member>, prefectNumber: string) {
    exists m :: m in members && m.prefectNumber == prefectNumber
  }

  predicate RowIdInUse(rows: seq<AttendanceRow>, id: string) {
    exists a :: a in rows && a.id == id
  }
}
