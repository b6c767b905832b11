/**
 * The attendance store behind the application's commands: the two tables
 * as fields of an object, and one method per command that reads or
 * changes them.
 *
 * What the commands take from outside is passed in: the calendar date,
 * the RFC 3339 timestamp and the hour and minute of the local clock, and
 * freshly generated ids, which must not already be in use.
 */
module Commands {
  import opened Wrappers
  import opened Schema
  import opened StatusRule
  import opened Queries

  /** The errors the commands report besides driver failures. */
  datatype CommandError =
    | AlreadyMarked(prefectNumber: string)          // "Attendance already marked for <n> today"
    | DuplicatePrefectNumber(prefectNumber: string) // the UNIQUE constraint on members.prefect_number

  /** The id `mark_attendance` files the mark under: that of the member
      holding the prefect number, or the fresh id of the member it creates. */
  function MemberIdFor(members: seq<Member>, prefectNumber: string, newMemberId: string): (r: string)
    ensures PrefectNumberTaken(members, prefectNumber) ==>
              exists m :: m in members && m.prefectNumber == prefectNumber && m.id == r
    ensures !PrefectNumberTaken(members, prefectNumber) ==> r == newMemberId
  {
    match FindByPrefect(members, prefectNumber)
    case Some(m) => m.id
    case None => newMemberId
  }

  /** Some other member than `id` already holds the prefect number. */
  predicate HeldByOther(members: seq<Member>, id: string, prefectNumber: string) {
    exists m :: m in members && m.id != id && m.prefectNumber == prefectNumber
  }

  /** The member after `UPDATE members SET ...` with the given columns. */
  function Patched(m: Member, prefectNumber: Option<string>, role: Option<string>, name: Option<string>): Member {
    Member(m.id,
           if name.Some? then name else m.name,
           role.GetOr(m.role),
           prefectNumber.GetOr(m.prefectNumber))
  }

  /** `UPDATE members SET ... WHERE id = ?`: the member with that id patched,
      every other row as it was. */
  function ApplyUpdate(members: seq<Member>, id: string, prefectNumber: Option<string>, role: Option<string>, name: Option<string>): (r: seq<Member>)
    ensures |r| == |members|
    ensures forall i :: 0 <= i < |members| ==> r[i].id == members[i].id
    ensures forall i :: 0 <= i < |members| && members[i].id != id ==> r[i] == members[i]
    ensures forall i :: 0 <= i < |members| && members[i].id == id ==>
              && r[i].prefectNumber == prefectNumber.GetOr(members[i].prefectNumber)
              && r[i].role == role.GetOr(members[i].role)
              && r[i].name == (if name.Some? then name else members[i].name)
  {
    seq(|members|, i requires 0 <= i < |members| =>
      if members[i].id == id then Patched(members[i], prefectNumber, role, name) else members[i])
  }

  /** An update of an id no member has changes nothing. */
  lemma ApplyUpdateAbsent(members: seq<Member>, id: string, prefectNumber: Option<string>, role: Option<string>, name: Option<string>)
    requires !MemberIdInUse(members, id)
    ensures ApplyUpdate(members, id, prefectNumber, role, name) == members
  {
    var r := ApplyUpdate(members, id, prefectNumber, role, name);
    forall i | 0 <= i < |members| ensures r[i] == members[i] {
      assert members[i] in members;
    }
  }

  /** Three one-column updates in a row, as `update_member` issues them,
      are one update of all the columns given. */
  lemma ApplyUpdateInSequence(members: seq<Member>, id: string, prefectNumber: Option<string>, role: Option<string>, name: Option<string>)
    ensures ApplyUpdate(ApplyUpdate(ApplyUpdate(members, id, prefectNumber, None, None), id, None, role, None), id, None, None, name)
         == ApplyUpdate(members, id, prefectNumber, role, name)
  {
  }

  /** An update keeps the keys unique unless it hands a prefect number to a
      second member. */
  lemma ApplyUpdateKeepsKeys(members: seq<Member>, id: string, prefectNumber: Option<string>, role: Option<string>, name: Option<string>)
    requires UniqueMemberIds(members) && UniquePrefectNumbers(members)
    requires prefectNumber.Some? && MemberIdInUse(members, id) ==> !HeldByOther(members, id, prefectNumber.value)
    ensures var r := ApplyUpdate(members, id, prefectNumber, role, name);
      UniqueMemberIds(r) && UniquePrefectNumbers(r)
  {
    if !MemberIdInUse(members, id) {
      ApplyUpdateAbsent(members, id, prefectNumber, role, name);
      return;
    }
    var r := ApplyUpdate(members, id, prefectNumber, role, name);
    forall i, j | 0 <= i < j < |r|
      ensures r[i].prefectNumber != r[j].prefectNumber
    {
      if members[i].id == id && prefectNumber.Some? {
        assert members[j] in members;
      } else if members[j].id == id && prefectNumber.Some? {
        assert members[i] in members;
      }
    }
  }

  /** `DELETE FROM members WHERE id = ?`. */
  function RemoveMember(members: seq<Member>, id: string): (r: seq<Member>)
    ensures forall m :: m in r <==> m in members && m.id != id
    ensures !MemberIdInUse(members, id) ==> r == members
    ensures |r| <= |members|
  {
    if members == [] then []
    else if members[0].id == id then RemoveMember(members[1..], id)
    else [members[0]] + RemoveMember(members[1..], id)
  }

  lemma TailKeepsKeys(members: seq<Member>)
    requires members != []
    requires UniqueMemberIds(members) && UniquePrefectNumbers(members)
    ensures UniqueMemberIds(members[1..]) && UniquePrefectNumbers(members[1..])
    ensures forall m :: m in members[1..] ==> m.id != members[0].id && m.prefectNumber != members[0].prefectNumber
  {
    var tail := members[1..];
    forall i, j | 0 <= i < j < |tail|
      ensures tail[i].id != tail[j].id && tail[i].prefectNumber != tail[j].prefectNumber
    {
      assert tail[i] == members[i + 1] && tail[j] == members[j + 1];
    }
    forall m | m in tail
      ensures m.id != members[0].id && m.prefectNumber != members[0].prefectNumber
    {
      var j :| 0 <= j < |tail| && tail[j] == m;
      assert tail[j] == members[j + 1];
    }
  }

  lemma ConsKeepsKeys(m: Member, rest: seq<Member>)
    requires UniqueMemberIds(rest) && UniquePrefectNumbers(rest)
    requires forall x :: x in rest ==> x.id != m.id && x.prefectNumber != m.prefectNumber
    ensures UniqueMemberIds([m] + rest) && UniquePrefectNumbers([m] + rest)
  {
    var r := [m] + rest;
    forall i, j | 0 <= i < j < |r|
      ensures r[i].id != r[j].id && r[i].prefectNumber != r[j].prefectNumber
    {
      assert r[j] == rest[j - 1];
      if i > 0 {
        assert r[i] == rest[i - 1];
      } else {
        assert rest[j - 1] in rest;
      }
    }
  }

  /** Deleting keeps the keys unique, and removes exactly one row when the
      id is present. */
  lemma {:induction false} RemoveMemberKeepsKeys(members: seq<Member>, id: string)
    requires UniqueMemberIds(members) && UniquePrefectNumbers(members)
    ensures var r := RemoveMember(members, id);
      UniqueMemberIds(r) && UniquePrefectNumbers(r)
      && |r| == (if MemberIdInUse(members, id) then |members| - 1 else |members|)
  {
    if members != [] {
      var tail := members[1..];
      assert members == [members[0]] + tail;
      TailKeepsKeys(members);
      RemoveMemberKeepsKeys(tail, id);
      if members[0].id == id {
        assert !MemberIdInUse(tail, id);
      } else {
        assert MemberIdInUse(members, id) <==> MemberIdInUse(tail, id);
        ConsKeepsKeys(members[0], RemoveMember(tail, id));
      }
    }
  }

  class Store {
    var members: seq<Member>
    var attendance: seq<AttendanceRow>

    /** The schema's keys, plus one mark per member and date. Foreign keys
        are off, so an attendance row may outlive its member. */
    ghost predicate Valid()
      reads this
      ensures Valid() ==> forall m1, m2 :: m1 in members && m2 in members && m1.prefectNumber == m2.prefectNumber ==> m1 == m2
      ensures Valid() ==> forall a1, a2 ::
                a1 in attendance && a2 in attendance && a1.memberId == a2.memberId && a1.date == a2.date ==> a1 == a2
    {
      SchemaValid(members, attendance) && OneMarkPerDay(attendance)
    }

    /** `init_db` on a new database file: both tables created, empty. */
    constructor ()
      ensures Valid()
      ensures members == [] && attendance == []
    {
      members := [];
      attendance := [];
    }

    /** `init_db` on a database whose tables exist: every CREATE TABLE says
        IF NOT EXISTS, so rows and tables are left as they are. */
    method InitDb()
      requires Valid()
      modifies this
      ensures Valid()
      ensures members == old(members) && attendance == old(attendance)
    {
    }

    /** `mark_attendance`: find or create the member by prefect number,
        refuse a second mark for that member on the same date, otherwise
        insert one row with the status the clock gives. */
    method MarkAttendance(prefectNumber: string, role: string, date: string, timestamp: string,
                          hour: nat, minute: nat, newMemberId: string, newRowId: string)
      returns (r: Result<AttendanceRecord, CommandError>)
      requires Valid()
      requires !MemberIdInUse(members, newMemberId)
      requires !RowIdInUse(attendance, newRowId)
      modifies this
      ensures Valid()
      // step 1: an existing member is reused untouched, whatever its role;
      // otherwise exactly one nameless member is added
      ensures PrefectNumberTaken(old(members), prefectNumber) ==> members == old(members)
      ensures !PrefectNumberTaken(old(members), prefectNumber) ==>
                members == old(members) + [Member(newMemberId, None, role, prefectNumber)]
      // step 2: the duplicate check, on member and date only
      ensures var memberId := MemberIdFor(old(members), prefectNumber, newMemberId);
              HasMark(old(attendance), memberId, date) ==>
                r == Err(AlreadyMarked(prefectNumber)) && attendance == old(attendance)
      // steps 3 and 4: one new row; the reply echoes the caller's arguments
      ensures var memberId := MemberIdFor(old(members), prefectNumber, newMemberId);
              !HasMark(old(attendance), memberId, date) ==>
                var status := StatusFor(hour, minute);
                && attendance == old(attendance) + [AttendanceRow(newRowId, memberId, date, timestamp, status)]
                && r == Ok(AttendanceRecord(newRowId, memberId, date, timestamp, status, Some(prefectNumber), Some(role)))
    {
      var memberId: string;
      match FindByPrefect(members, prefectNumber) {
        case Some(m) =>
          memberId := m.id;
        case None =>
          memberId := newMemberId;
          members := members + [Member(newMemberId, None, role, prefectNumber)];
      }

      if HasMark(attendance, memberId, date) {
        return Err(AlreadyMarked(prefectNumber));
      }

      var status := StatusFor(hour, minute);
      UncheckedMarkKeepsOnePerDay(attendance, AttendanceRow(newRowId, memberId, date, timestamp, status));
      attendance := attendance + [AttendanceRow(newRowId, memberId, date, timestamp, status)];
      r := Ok(AttendanceRecord(newRowId, memberId, date, timestamp, status, Some(prefectNumber), Some(role)));
    }

    /** `get_attendance_by_date`: the joined rows of one date. */
    method GetAttendanceByDate(date: string) returns (result: seq<AttendanceRecord>)
      ensures result == JoinRows(attendance, members, Some(date))
    {
      result := [];
      var i := 0;
      while i < |attendance|
        invariant 0 <= i <= |attendance|
        invariant result == JoinRows(attendance[..i], members, Some(date))
      {
        var a := attendance[i];
        assert attendance[..i + 1][..i] == attendance[..i];
        match FindById(members, a.memberId) {
          case Some(m) =>
            if a.date == date {
              result := result + [Joined(a, m)];
            }
          case None =>
        }
        i := i + 1;
      }
      assert attendance[..i] == attendance;
    }

    /** `get_all_attendance`: every joined row. */
    method GetAllAttendance() returns (result: seq<AttendanceRecord>)
      ensures result == JoinRows(attendance, members, None)
    {
      result := [];
      var i := 0;
      while i < |attendance|
        invariant 0 <= i <= |attendance|
        invariant result == JoinRows(attendance[..i], members, None)
      {
        var a := attendance[i];
        assert attendance[..i + 1][..i] == attendance[..i];
        match FindById(members, a.memberId) {
          case Some(m) =>
            result := result + [Joined(a, m)];
          case None =>
        }
        i := i + 1;
      }
      assert attendance[..i] == attendance;
    }

    /** `get_member_list`: every member row. */
    method GetMemberList() returns (result: seq<Member>)
      ensures result == members
    {
      result := [];
      var i := 0;
      while i < |members|
        invariant 0 <= i <= |members|
        invariant result == members[..i]
      {
        result := result + [members[i]];
        i := i + 1;
      }
    }

    /** `create_member`: insert a member under a fresh id; a missing name is
        stored as the empty string, and a taken prefect number is refused. */
    method CreateMember(prefectNumber: string, role: string, name: Option<string>, newId: string)
      returns (r: Result<string, CommandError>)
      requires Valid()
      requires !MemberIdInUse(members, newId)
      modifies this
      ensures Valid()
      ensures attendance == old(attendance)
      ensures PrefectNumberTaken(old(members), prefectNumber) ==>
                r == Err(DuplicatePrefectNumber(prefectNumber)) && members == old(members)
      ensures !PrefectNumberTaken(old(members), prefectNumber) ==>
                r == Ok(newId) && members == old(members) + [Member(newId, Some(name.GetOr("")), role, prefectNumber)]
    {
      if FindByPrefect(members, prefectNumber).Some? {
        return Err(DuplicatePrefectNumber(prefectNumber));
      }
      members := members + [Member(newId, Some(name.GetOr("")), role, prefectNumber)];
      r := Ok(newId);
    }

    /** `update_member`: up to three updates, prefect number first, each
        only on the row with that id. A prefect number held by another
        member fails the first update, before anything is written. */
    method UpdateMember(id: string, prefectNumber: Option<string>, role: Option<string>, name: Option<string>)
      returns (r: Result<(), CommandError>)
      requires Valid()
      modifies this
      ensures Valid()
      ensures attendance == old(attendance)
      ensures r.Err? <==> prefectNumber.Some? && MemberIdInUse(old(members), id)
                          && HeldByOther(old(members), id, prefectNumber.value)
      ensures r.Err? ==> r.error == DuplicatePrefectNumber(prefectNumber.value) && members == old(members)
      ensures r.Ok? ==> members == ApplyUpdate(old(members), id, prefectNumber, role, name)
    {
      ghost var before := members;
      if prefectNumber.Some? {
        if FindById(members, id).Some? && HeldByOther(members, id, prefectNumber.value) {
          return Err(DuplicatePrefectNumber(prefectNumber.value));
        }
        ApplyUpdateKeepsKeys(members, id, prefectNumber, None, None);
        members := ApplyUpdate(members, id, prefectNumber, None, None);
      } else {
        assert members == ApplyUpdate(before, id, prefectNumber, None, None);
      }
      ApplyUpdateKeepsKeys(members, id, None, role, None);
      members := ApplyUpdate(members, id, None, role, None);
      ApplyUpdateKeepsKeys(members, id, None, None, name);
      members := ApplyUpdate(members, id, None, None, name);
      ApplyUpdateInSequence(before, id, prefectNumber, role, name);
      r := Ok(());
    }

    /** `delete_member`: remove that member's row, if any; its attendance
        rows stay. */
    method DeleteMember(id: string)
      requires Valid()
      modifies this
      ensures Valid()
      ensures members == RemoveMember(old(members), id)
      ensures attendance == old(attendance)
    {
      RemoveMemberKeepsKeys(members, id);
      members := RemoveMember(members, id);
    }

    /** `wipe_all_data`: both tables emptied. */
    method WipeAllData()
      modifies this
      ensures Valid()
      ensures members == [] && attendance == []
    {
      attendance := [];
      members := [];
    }
  }
}
