/**
 * What the commands read from the tables: the member lookups and the
 * attendance listing, an inner join of `attendance` with `members`.
 */
module Queries {
  import opened Wrappers
  import opened Schema

  /** The record the commands return: an attendance row, plus the prefect
      number and role of its member. */
  datatype AttendanceRecord = AttendanceRecord(
    id: string, memberId: string, date: string, timestamp: string, status: string,
    prefectNumber: Option<string>, role: Option<string>)

  /** `SELECT ... FROM members WHERE prefect_number = ?`: the first member
      holding that prefect number, if any. */
  function FindByPrefect(members: seq<Member>, prefectNumber: string): (r: Option<Member>)
    ensures r.Some? ==> r.value in members && r.value.prefectNumber == prefectNumber
    ensures r.None? <==> !PrefectNumberTaken(members, prefectNumber)
  {
    if members == [] then None
    else if members[0].prefectNumber == prefectNumber then Some(members[0])
    else FindByPrefect(members[1..], prefectNumber)
  }

  /** The member with that id, if any; the right-hand side of the join. */
  function FindById(members: seq<Member>, id: string): (r: Option<Member>)
    ensures r.Some? ==> r.value in members && r.value.id == id
    ensures r.None? <==> !MemberIdInUse(members, id)
  {
    if members == [] then None
    else if members[0].id == id then Some(members[0])
    else FindById(members[1..], id)
  }

  /** With unique ids, the member that FindById returns is the only one. */
  lemma FindByIdUnique(members: seq<Member>, j: nat)
    requires UniqueMemberIds(members)
    requires j < |members|
    ensures FindById(members, members[j].id) == Some(members[j])
  {
    var r := FindById(members, members[j].id);
    var k :| 0 <= k < |members| && members[k] == r.value;
    IdPicksMember(members, j, k);
  }

  lemma IdPicksMember(members: seq<Member>, j: nat, k: nat)
    requires UniqueMemberIds(members)
    requires j < |members| && k < |members| && members[j].id == members[k].id
    ensures j == k
  {
  }

  lemma PrefectNumberPicksMember(members: seq<Member>, j: nat, k: nat)
    requires UniquePrefectNumbers(members)
    requires j < |members| && k < |members| && members[j].prefectNumber == members[k].prefectNumber
    ensures j == k
  {
  }

  /** `SELECT EXISTS(... WHERE member_id = ? AND date = ?)`: some row marks
      that member on that date. */
  predicate HasMark(rows: seq<AttendanceRow>, memberId: string, date: string) {
    exists a :: a in rows && a.memberId == memberId && a.date == date
  }

  /** Appending a row that the existence check did not find keeps one mark
      per member and date. */
  lemma UncheckedMarkKeepsOnePerDay(rows: seq<AttendanceRow>, a: AttendanceRow)
    requires OneMarkPerDay(rows)
    requires !HasMark(rows, a.memberId, a.date)
    ensures OneMarkPerDay(rows + [a])
  {
    var r := rows + [a];
    forall i, j | 0 <= i < j < |r|
      ensures !(r[i].memberId == r[j].memberId && r[i].date == r[j].date)
    {
      assert r[i] == rows[i];
      if j < |rows| {
        assert r[j] == rows[j];
      }
    }
  }

  predicate DateMatches(filter: Option<string>, a: AttendanceRow) {
    filter.None? || filter.value == a.date
  }

  function Joined(a: AttendanceRow, m: Member): AttendanceRecord {
    AttendanceRecord(a.id, a.memberId, a.date, a.timestamp, a.status, Some(m.prefectNumber), Some(m.role))
  }

  /** The record carries the prefect number and role of the member it names. */
  predicate InnerJoined(x: AttendanceRecord, members: seq<Member>) {
    exists m :: m in members && m.id == x.memberId && x.prefectNumber == Some(m.prefectNumber) && x.role == Some(m.role)
  }

  /** What the join makes of one attendance row: nothing when its member is
      gone or its date is filtered out, else the row with its member. */
  function JoinOne(a: AttendanceRow, members: seq<Member>, filter: Option<string>): (r: seq<AttendanceRecord>)
    ensures |r| <= 1
    ensures forall x :: x in r ==> x.id == a.id && x.date == a.date && InnerJoined(x, members)
  {
    match FindById(members, a.memberId)
    case Some(m) => if DateMatches(filter, a) then [Joined(a, m)] else []
    case None => []
  }

  /** The rows of `attendance a JOIN members m ON a.member_id = m.id`,
      restricted to `a.date = filter` when a filter is given, in table order.
      A row whose member is gone drops out (an inner join). */
  function JoinRows(rows: seq<AttendanceRow>, members: seq<Member>, filter: Option<string>): (r: seq<AttendanceRecord>)
    ensures |r| <= |rows|
    ensures forall x :: x in r ==> InnerJoined(x, members)
    ensures filter.Some? ==> forall x :: x in r ==> x.date == filter.value
  {
    if rows == [] then []
    else JoinRows(rows[..|rows| - 1], members, filter) + JoinOne(rows[|rows| - 1], members, filter)
  }

  /** The pairs of an attendance row and a member that the join matches. */
  predicate JoinPair(rows: seq<AttendanceRow>, members: seq<Member>, filter: Option<string>, i: int, j: int) {
    0 <= i < |rows| && 0 <= j < |members|
    && rows[i].memberId == members[j].id && DateMatches(filter, rows[i])
  }

  /** Every joined record comes from a matching pair of rows. */
  lemma {:induction false} JoinRowsSound(rows: seq<AttendanceRow>, members: seq<Member>, filter: Option<string>, r: AttendanceRecord)
    requires r in JoinRows(rows, members, filter)
    ensures exists i, j :: JoinPair(rows, members, filter, i, j) && r == Joined(rows[i], members[j])
  {
    var n := |rows| - 1;
    var rest := JoinRows(rows[..n], members, filter);
    if r in rest {
      JoinRowsSound(rows[..n], members, filter, r);
      var i, j :| JoinPair(rows[..n], members, filter, i, j) && r == Joined(rows[..n][i], members[j]);
      assert JoinPair(rows, members, filter, i, j);
    } else {
      var found := FindById(members, rows[n].memberId);
      assert r in JoinOne(rows[n], members, filter);
      var j :| 0 <= j < |members| && members[j] == found.value;
      assert JoinPair(rows, members, filter, n, j);
    }
  }

  /** Every matching pair of rows appears in the join (member ids being unique). */
  lemma {:induction false} JoinRowsComplete(rows: seq<AttendanceRow>, members: seq<Member>, filter: Option<string>, i: int, j: int)
    requires UniqueMemberIds(members)
    requires JoinPair(rows, members, filter, i, j)
    ensures Joined(rows[i], members[j]) in JoinRows(rows, members, filter)
  {
    var n := |rows| - 1;
    if i < n {
      assert JoinPair(rows[..n], members, filter, i, j);
      JoinRowsComplete(rows[..n], members, filter, i, j);
    } else {
      FindByIdUnique(members, j);
      assert JoinOne(rows[n], members, filter) == [Joined(rows[i], members[j])];
    }
  }

  /** The join, characterised without reference to table order: a record is
      listed exactly when it pairs an attendance row that passes the date
      filter with the member that row names. */
  lemma JoinRowsMembership(rows: seq<AttendanceRow>, members: seq<Member>, filter: Option<string>, r: AttendanceRecord)
    requires UniqueMemberIds(members)
    ensures r in JoinRows(rows, members, filter) <==>
      exists i, j :: JoinPair(rows, members, filter, i, j) && r == Joined(rows[i], members[j])
  {
    if r in JoinRows(rows, members, filter) {
      JoinRowsSound(rows, members, filter, r);
    }
    if exists i, j :: JoinPair(rows, members, filter, i, j) && r == Joined(rows[i], members[j]) {
      var i, j :| JoinPair(rows, members, filter, i, j) && r == Joined(rows[i], members[j]);
      JoinRowsComplete(rows, members, filter, i, j);
    }
  }

  predicate DistinctIds(records: seq<AttendanceRecord>) {
    forall p, q :: 0 <= p < q < |records| ==> records[p].id != records[q].id
  }

  lemma AppendKeepsDistinctIds(records: seq<AttendanceRecord>, x: AttendanceRecord)
    requires DistinctIds(records)
    requires forall p :: 0 <= p < |records| ==> records[p].id != x.id
    ensures DistinctIds(records + [x])
  {
    var r := records + [x];
    forall p, q | 0 <= p < q < |r| ensures r[p].id != r[q].id {
      assert r[p] == records[p];
      if q < |records| { assert r[q] == records[q]; }
    }
  }

  /** No attendance row is listed twice: the listed ids are distinct, so the
      list, whatever its order, is determined by its members. */
  lemma {:induction false} JoinRowsDistinct(rows: seq<AttendanceRow>, members: seq<Member>, filter: Option<string>)
    requires UniqueRowIds(rows)
    ensures DistinctIds(JoinRows(rows, members, filter))
  {
    if rows != [] {
      var n := |rows| - 1;
      var rest := JoinRows(rows[..n], members, filter);
      var one := JoinOne(rows[n], members, filter);
      assert UniqueRowIds(rows[..n]);
      JoinRowsDistinct(rows[..n], members, filter);
      if one != [] {
        var x := one[0];
        assert one == [x] && x.id == rows[n].id;
        forall p | 0 <= p < |rest|
          ensures rest[p].id != x.id
        {
          assert rest[p] in rest;
          JoinRowsSound(rows[..n], members, filter, rest[p]);
          var i, j :| JoinPair(rows[..n], members, filter, i, j) && rest[p] == Joined(rows[..n][i], members[j]);
          assert rest[p].id == rows[i].id;
        }
        AppendKeepsDistinctIds(rest, x);
      } else {
        assert JoinRows(rows, members, filter) == rest;
      }
    }
  }

  predicate OnePerPrefectAndDate(records: seq<AttendanceRecord>) {
    forall p, q :: 0 <= p < q < |records| ==>
      !(records[p].prefectNumber == records[q].prefectNumber && records[p].date == records[q].date)
  }

  lemma AppendKeepsOnePerPrefectAndDate(records: seq<AttendanceRecord>, x: AttendanceRecord)
    requires OnePerPrefectAndDate(records)
    requires forall p :: 0 <= p < |records| ==> !(records[p].prefectNumber == x.prefectNumber && records[p].date == x.date)
    ensures OnePerPrefectAndDate(records + [x])
  {
    var r := records + [x];
    forall p, q | 0 <= p < q < |r|
      ensures !(r[p].prefectNumber == r[q].prefectNumber && r[p].date == r[q].date)
    {
      assert r[p] == records[p];
      if q < |records| { assert r[q] == records[q]; }
    }
  }

  /** A listing never shows one prefect number twice on one date: prefect
      numbers pick out one member each, and a member is marked at most once
      a day. */
  lemma {:induction false} JoinRowsOnePerPrefectAndDate(rows: seq<AttendanceRow>, members: seq<Member>, filter: Option<string>)
    requires UniqueMemberIds(members) && UniquePrefectNumbers(members)
    requires OneMarkPerDay(rows)
    ensures OnePerPrefectAndDate(JoinRows(rows, members, filter))
  {
    if rows != [] {
      var n := |rows| - 1;
      var rest := JoinRows(rows[..n], members, filter);
      var one := JoinOne(rows[n], members, filter);
      assert OneMarkPerDay(rows[..n]);
      JoinRowsOnePerPrefectAndDate(rows[..n], members, filter);
      if one != [] {
        var found := FindById(members, rows[n].memberId);
        var x := Joined(rows[n], found.value);
        assert one == [x];
        var k :| 0 <= k < |members| && members[k] == found.value;
        forall p | 0 <= p < |rest|
          ensures !(rest[p].prefectNumber == x.prefectNumber && rest[p].date == x.date)
        {
          assert rest[p] in rest;
          JoinRowsSound(rows[..n], members, filter, rest[p]);
          var i, j :| JoinPair(rows[..n], members, filter, i, j) && rest[p] == Joined(rows[..n][i], members[j]);
          if members[j].prefectNumber == found.value.prefectNumber {
            PrefectNumberPicksMember(members, j, k);
            assert rows[i].memberId == rows[n].memberId;
            assert rows[i].date != rows[n].date;
          }
        }
        AppendKeepsOnePerPrefectAndDate(rest, x);
      } else {
        assert JoinRows(rows, members, filter) == rest;
      }
    }
  }

  /** The rows of a listing that fall on the given date, in listing order. */
  function OnDate(records: seq<AttendanceRecord>, date: string): (r: seq<AttendanceRecord>)
    ensures forall x :: x in r <==> x in records && x.date == date
  {
    if records == [] then []
    else
      var rest := OnDate(records[..|records| - 1], date);
      var x := records[|records| - 1];
      assert records == records[..|records| - 1] + [x];
      if x.date == date then rest + [x] else rest
  }

  /** Listing one date gives the full listing filtered to that date. */
  lemma {:induction false} ByDateIsAllOnDate(rows: seq<AttendanceRow>, members: seq<Member>, date: string)
    ensures JoinRows(rows, members, Some(date)) == OnDate(JoinRows(rows, members, None), date)
  {
    if rows != [] {
      var n := |rows| - 1;
      ByDateIsAllOnDate(rows[..n], members, date);
      JoinOneOnDate(rows[n], members, date);
      OnDateAppend(JoinRows(rows[..n], members, None), JoinOne(rows[n], members, None), date);
    }
  }

  lemma JoinOneOnDate(a: AttendanceRow, members: seq<Member>, date: string)
    ensures JoinOne(a, members, Some(date)) == OnDate(JoinOne(a, members, None), date)
  {
    match FindById(members, a.memberId) {
      case Some(m) =>
        var x := Joined(a, m);
        assert JoinOne(a, members, None) == [x];
        assert [x][..0] == [];
      case None =>
    }
  }

  lemma {:induction false} OnDateAppend(xs: seq<AttendanceRecord>, ys: seq<AttendanceRecord>, date: string)
    ensures OnDate(xs + ys, date) == OnDate(xs, date) + OnDate(ys, date)
  {
    if ys != [] {
      var k := |ys| - 1;
      OnDateAppend(xs, ys[..k], date);
      assert (xs + ys)[..|xs + ys| - 1] == xs + ys[..k];
    } else {
      assert xs + ys == xs;
    }
  }
}
