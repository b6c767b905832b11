/**
 * Callers of the store: short runs of commands on a new database, with
 * what the command contracts alone let a caller conclude.
 */
module Scenarios {
  import opened Wrappers
  import opened Schema
  import opened StatusRule
  import opened Queries
  import opened Commands

  /** The same prefect number marked twice on one day: the second mark is
      refused, whatever the time. */
  method MarkTwiceSameDay() returns (first: Result<AttendanceRecord, CommandError>, second: Result<AttendanceRecord, CommandError>)
    ensures first.Ok? && first.value.status == Present
    ensures second == Err(AlreadyMarked("42"))
  {
    var store := new Store();
    first := store.MarkAttendance("42", "Senior", "2025-03-03", "2025-03-03T07:00:59+05:30", 7, 0, "m1", "a1");
    second := store.MarkAttendance("42", "Senior", "2025-03-03", "2025-03-03T07:30:00+05:30", 7, 30, "m2", "a2");
  }

  /** The same prefect number on two days: both marks go in, under one
      member, the second one late. */
  method MarkOnTwoDays() returns (first: Result<AttendanceRecord, CommandError>, second: Result<AttendanceRecord, CommandError>, members: seq<Member>)
    ensures first.Ok? && second.Ok?
    ensures first.value.memberId == second.value.memberId
    ensures first.value.status == Present && second.value.status == Late
    ensures |members| == 1
  {
    var store := new Store();
    first := store.MarkAttendance("42", "Senior", "2025-03-03", "2025-03-03T06:45:00+05:30", 6, 45, "m1", "a1");
    second := store.MarkAttendance("42", "Senior", "2025-03-04", "2025-03-04T07:01:00+05:30", 7, 1, "m2", "a2");
    members := store.GetMemberList();
  }

  /** The role is not part of the duplicate key: the same prefect number
      under another role on the same day is refused, and the stored member
      keeps the role it was created with. */
  method OtherRoleSameDay() returns (second: Result<AttendanceRecord, CommandError>, members: seq<Member>)
    ensures second == Err(AlreadyMarked("42"))
    ensures members == [Member("m1", None, "Senior", "42")]
  {
    var store := new Store();
    var first := store.MarkAttendance("42", "Senior", "2025-03-03", "2025-03-03T06:45:00+05:30", 6, 45, "m1", "a1");
    second := store.MarkAttendance("42", "Junior", "2025-03-03", "2025-03-03T06:50:00+05:30", 6, 50, "m2", "a2");
    members := store.GetMemberList();
  }

  /** The reply to a mark carries the role the caller gave, while the
      listing carries the role stored on the member. */
  method ReplyEchoesCallerRole() returns (reply: Result<AttendanceRecord, CommandError>, listed: seq<AttendanceRecord>)
    ensures reply.Ok? && reply.value.role == Some("Junior")
    ensures |listed| == 1 && listed[0].role == Some("Senior") && listed[0].id == reply.value.id
  {
    var store := new Store();
    var created := store.CreateMember("42", "Senior", None, "m1");
    reply := store.MarkAttendance("42", "Junior", "2025-03-03", "2025-03-03T06:45:00+05:30", 6, 45, "m2", "a1");
    listed := store.GetAttendanceByDate("2025-03-03");
  }

  /** Deleting a member leaves its attendance rows in place but drops them
      from the listings; the prefect number can then be marked again on the
      same day, under a new member. */
  method DeleteThenMarkAgain() returns (hidden: seq<AttendanceRecord>, again: Result<AttendanceRecord, CommandError>, rows: nat)
    ensures hidden == []
    ensures again.Ok? && again.value.memberId == "m2"
    ensures rows == 2
  {
    var store := new Store();
    var first := store.MarkAttendance("42", "Senior", "2025-03-03", "2025-03-03T06:45:00+05:30", 6, 45, "m1", "a1");
    store.DeleteMember("m1");
    hidden := store.GetAllAttendance();
    again := store.MarkAttendance("42", "Senior", "2025-03-03", "2025-03-03T06:50:00+05:30", 6, 50, "m2", "a2");
    rows := |store.attendance|;
  }

  /** The freshness precondition covers current members only. A new member
      that reuses the id of a deleted one inherits its attendance rows, so
      a mark on the same date is refused. The member insert is not rolled
      back. */
  method ReusedIdAfterDelete() returns (refused: Result<AttendanceRecord, CommandError>, members: seq<Member>)
    ensures refused == Err(AlreadyMarked("43"))
    ensures members == [Member("m1", None, "Senior", "43")]
  {
    var store := new Store();
    var first := store.MarkAttendance("42", "Senior", "2025-03-03", "2025-03-03T06:45:00+05:30", 6, 45, "m1", "a1");
    store.DeleteMember("m1");
    refused := store.MarkAttendance("43", "Senior", "2025-03-03", "2025-03-03T06:50:00+05:30", 6, 50, "m1", "a2");
    members := store.GetMemberList();
  }
}
