/**
 * Rows of the `attendance` table and the two "one record per user"
 * reductions the admin pages compute over them with a `Map`:
 *  - first seen: `if (!map.has(id)) map.set(id, row)`, run over rows ordered
 *    by date, newest first (the dashboard average and the high-attendance count);
 *  - latest by date: `if (!existing || row.date > existing.date) map.set(id, row)`
 *    (the leaderboard).
 * A JavaScript `Map` lists its entries in the order their keys were first set,
 * so both reductions are modelled as sequences in order of first appearance.
 */
module Attendance {
  import opened Wrappers

  type UserId = string

  /** A calendar day; ISO `YYYY-MM-DD` strings compare like these numbers. */
  type Date = int

  /** One row of the `attendance` table. */
  datatype AttendanceRecord = AttendanceRecord(
    userId: UserId,
    date: Date,
    status: string,
    fromTime: Option<string>,
    toTime: Option<string>,
    hours: Option<real>,
    overall: int)

  /** The distinct users that own rows. */
  function UserIds(rows: seq<AttendanceRecord>): set<UserId> {
    set i | 0 <= i < |rows| :: rows[i].userId
  }

  /** The `overall_attendance_percentage` column, in row order. */
  function Percentages(entries: seq<AttendanceRecord>): (ps: seq<int>)
    ensures |ps| == |entries|
    ensures forall k :: 0 <= k < |entries| ==> ps[k] == entries[k].overall
  {
    seq(|entries|, k requires 0 <= k < |entries| => entries[k].overall)
  }

  /** Where user `u` sits among `entries`, or -1: `map.has` / `map.get` on the model. */
  function IndexOfUser(entries: seq<AttendanceRecord>, u: UserId): (k: int)
    ensures -1 <= k < |entries|
    ensures k >= 0 ==> entries[k].userId == u && forall j :: 0 <= j < k ==> entries[j].userId != u
    ensures k == -1 <==> u !in UserIds(entries)
  {
    if entries == [] then -1
    else if entries[0].userId == u then 0
    else
      var k := IndexOfUser(entries[1..], u);
      assert UserIds(entries) == {entries[0].userId} + UserIds(entries[1..]) by {
        forall v | v in UserIds(entries) ensures v in {entries[0].userId} + UserIds(entries[1..]) {
          var i :| 0 <= i < |entries| && entries[i].userId == v;
          if i > 0 { assert entries[1..][i - 1] == entries[i]; }
        }
      }
      if k == -1 then -1 else k + 1
  }

  /** Every row is the first of its user among `rows`, and no two share a user. */
  ghost predicate DistinctUsers(entries: seq<AttendanceRecord>) {
    forall k, l :: 0 <= k < l < |entries| ==> entries[k].userId != entries[l].userId
  }

  /** `rows[i]` is the first row of its user. */
  ghost predicate FirstOfUser(rows: seq<AttendanceRecord>, i: int)
    requires 0 <= i < |rows|
  {
    forall j :: 0 <= j < i ==> rows[j].userId != rows[i].userId
  }

  /** `rows[i]` has the latest date of its user's rows, and is the first row with that date. */
  ghost predicate LatestOfUser(rows: seq<AttendanceRecord>, i: int)
    requires 0 <= i < |rows|
  {
    forall j :: 0 <= j < |rows| && rows[j].userId == rows[i].userId ==>
      rows[j].date <= rows[i].date && (j < i ==> rows[j].date < rows[i].date)
  }

  /** `e` is one of `rows` and is its user's latest row there. */
  ghost predicate LatestRow(rows: seq<AttendanceRecord>, e: AttendanceRecord) {
    exists i :: 0 <= i < |rows| && rows[i] == e && LatestOfUser(rows, i)
  }

  /** The rows are ordered by date, newest first (`.order('attendance_date', { ascending: false })`). */
  ghost predicate DateDescending(rows: seq<AttendanceRecord>) {
    forall i, j :: 0 <= i < j < |rows| ==> rows[i].date >= rows[j].date
  }

  /** The `has`/`set` reduction: the first row of each user, in order of first appearance. */
  function FirstSeen(rows: seq<AttendanceRecord>): seq<AttendanceRecord> {
    if rows == [] then []
    else
      var init, r := rows[..|rows| - 1], rows[|rows| - 1];
      if r.userId in UserIds(init) then FirstSeen(init) else FirstSeen(init) + [r]
  }

  /**
   * The `get`/compare/`set` reduction: for each user the row with the latest
   * date, the earlier row kept on equal dates, in order of first appearance.
   */
  function LatestByUser(rows: seq<AttendanceRecord>): seq<AttendanceRecord> {
    if rows == [] then []
    else
      var p, r := LatestByUser(rows[..|rows| - 1]), rows[|rows| - 1];
      var k := IndexOfUser(p, r.userId);
      if k == -1 then p + [r]
      else if r.date > p[k].date then p[k := r]
      else p
  }

  lemma UserIdsSnoc(rows: seq<AttendanceRecord>)
    requires rows != []
    ensures UserIds(rows) == UserIds(rows[..|rows| - 1]) + {rows[|rows| - 1].userId}
  {
    var init := rows[..|rows| - 1];
    forall v | v in UserIds(rows) ensures v in UserIds(init) + {rows[|rows| - 1].userId} {
      var i :| 0 <= i < |rows| && rows[i].userId == v;
      if i < |init| { assert init[i] == rows[i]; }
    }
    forall v | v in UserIds(init) ensures v in UserIds(rows) {
      var i :| 0 <= i < |init| && init[i].userId == v;
      assert rows[i] == init[i];
    }
  }

  /** Two lists whose entries have the same users position by position hold the same users. */
  lemma SameUsers(a: seq<AttendanceRecord>, b: seq<AttendanceRecord>)
    requires |a| == |b|
    requires forall k :: 0 <= k < |a| ==> a[k].userId == b[k].userId
    ensures UserIds(a) == UserIds(b)
    ensures DistinctUsers(b) ==> DistinctUsers(a)
  {
    forall v | v in UserIds(a) ensures v in UserIds(b) {
      var i :| 0 <= i < |a| && a[i].userId == v;
      assert b[i].userId == v;
    }
    forall v | v in UserIds(b) ensures v in UserIds(a) {
      var i :| 0 <= i < |b| && b[i].userId == v;
      assert a[i].userId == v;
    }
  }

  /** Appending a row of a new user keeps the users distinct. */
  lemma DistinctSnoc(p: seq<AttendanceRecord>, r: AttendanceRecord)
    requires DistinctUsers(p) && r.userId !in UserIds(p)
    ensures DistinctUsers(p + [r])
  {
    var e := p + [r];
    forall k, l | 0 <= k < l < |e| ensures e[k].userId != e[l].userId {
      if l == |p| {
        assert e[k] == p[k];
      } else {
        assert e[k] == p[k] && e[l] == p[l];
      }
    }
  }

  /** Distinct users: as many users as entries. */
  lemma {:induction false} DistinctCard(p: seq<AttendanceRecord>)
    requires DistinctUsers(p)
    ensures |UserIds(p)| == |p|
  {
    if p != [] {
      var init, r := p[..|p| - 1], p[|p| - 1];
      assert DistinctUsers(init) by {
        forall k, l | 0 <= k < l < |init| ensures init[k].userId != init[l].userId {
          assert init[k] == p[k] && init[l] == p[l];
        }
      }
      DistinctCard(init);
      UserIdsSnoc(p);
      forall i | 0 <= i < |init| ensures init[i].userId != r.userId {
        assert init[i] == p[i];
      }
    }
  }

  /** First seen holds each user exactly once. */
  lemma {:induction false} FirstSeenUsers(rows: seq<AttendanceRecord>)
    ensures UserIds(FirstSeen(rows)) == UserIds(rows)
    ensures DistinctUsers(FirstSeen(rows))
    ensures |FirstSeen(rows)| == |UserIds(rows)|
  {
    FirstSeenDistinct(rows);
    DistinctCard(FirstSeen(rows));
  }

  lemma {:induction false} FirstSeenDistinct(rows: seq<AttendanceRecord>)
    ensures UserIds(FirstSeen(rows)) == UserIds(rows)
    ensures DistinctUsers(FirstSeen(rows))
  {
    if rows != [] {
      var init, r := rows[..|rows| - 1], rows[|rows| - 1];
      FirstSeenDistinct(init);
      UserIdsSnoc(rows);
      var p := FirstSeen(init);
      if r.userId !in UserIds(init) {
        UserIdsSnoc(p + [r]);
        assert (p + [r])[..|p|] == p;
        DistinctSnoc(p, r);
      }
    }
  }

  /** Latest by date holds the same users as first seen, in the same order. */
  lemma {:induction false} LatestByUserUsers(rows: seq<AttendanceRecord>)
    ensures |LatestByUser(rows)| == |FirstSeen(rows)|
    ensures forall k :: 0 <= k < |FirstSeen(rows)| ==> LatestByUser(rows)[k].userId == FirstSeen(rows)[k].userId
    ensures UserIds(LatestByUser(rows)) == UserIds(rows)
    ensures DistinctUsers(LatestByUser(rows))
  {
    FirstSeenDistinct(rows);
    if rows != [] {
      LatestByUserUsers(rows[..|rows| - 1]);
      LatestFirstStep(rows);
    }
    SameUsers(LatestByUser(rows), FirstSeen(rows));
  }

  /** One step of the induction above: both reductions treat the last row alike. */
  lemma LatestFirstStep(rows: seq<AttendanceRecord>)
    requires rows != []
    requires var init := rows[..|rows| - 1];
      && |LatestByUser(init)| == |FirstSeen(init)|
      && (forall k :: 0 <= k < |FirstSeen(init)| ==> LatestByUser(init)[k].userId == FirstSeen(init)[k].userId)
      && UserIds(LatestByUser(init)) == UserIds(init)
    ensures |LatestByUser(rows)| == |FirstSeen(rows)|
    ensures forall k :: 0 <= k < |FirstSeen(rows)| ==> LatestByUser(rows)[k].userId == FirstSeen(rows)[k].userId
  {
    var init, r := rows[..|rows| - 1], rows[|rows| - 1];
    var p, q := LatestByUser(init), FirstSeen(init);
    var c := IndexOfUser(p, r.userId);
    if c == -1 {
      assert LatestByUser(rows) == p + [r] && FirstSeen(rows) == q + [r];
    } else {
      assert FirstSeen(rows) == q;
    }
  }

  /** Each first-seen entry is the first row of its user. */
  lemma {:induction false} FirstSeenFirst(rows: seq<AttendanceRecord>)
    ensures forall k :: 0 <= k < |FirstSeen(rows)| ==>
      exists i :: 0 <= i < |rows| && rows[i] == FirstSeen(rows)[k] && FirstOfUser(rows, i)
  {
    if rows != [] {
      var init, r := rows[..|rows| - 1], rows[|rows| - 1];
      var n := |init|;
      FirstSeenFirst(init);
      var p, f := FirstSeen(init), FirstSeen(rows);
      assert forall j :: 0 <= j < n ==> rows[j] == init[j];
      forall k | 0 <= k < |f|
        ensures exists i :: 0 <= i < |rows| && rows[i] == f[k] && FirstOfUser(rows, i)
      {
        if k < |p| {
          var i :| 0 <= i < n && init[i] == p[k] && FirstOfUser(init, i);
          assert rows[i] == f[k] && FirstOfUser(rows, i);
        } else {
          assert r.userId !in UserIds(init);
          assert rows[n] == f[k] && FirstOfUser(rows, n);
        }
      }
      assert forall k :: 0 <= k < |FirstSeen(rows)| ==>
        exists i :: 0 <= i < |rows| && rows[i] == FirstSeen(rows)[k] && FirstOfUser(rows, i);
    } else {
      assert FirstSeen(rows) == [];
    }
  }

  /** Each latest-by-date entry is its user's latest row, the first one on equal dates. */
  lemma {:induction false} LatestByUserLatest(rows: seq<AttendanceRecord>)
    ensures forall k :: 0 <= k < |LatestByUser(rows)| ==> LatestRow(rows, LatestByUser(rows)[k])
  {
    if rows != [] {
      var init, r := rows[..|rows| - 1], rows[|rows| - 1];
      assert rows == init + [r];
      LatestByUserLatest(init);
      LatestByUserUsers(init);
      forall k | 0 <= k < |LatestByUser(rows)|
        ensures LatestRow(rows, LatestByUser(rows)[k])
      {
        LatestEntryStep(init, r, k);
      }
    } else {
      assert LatestByUser(rows) == [];
    }
  }

  /** One step of the induction above: entry `k` after row `r` is processed. */
  lemma LatestEntryStep(init: seq<AttendanceRecord>, r: AttendanceRecord, k: nat)
    requires k < |LatestByUser(init + [r])|
    requires forall k :: 0 <= k < |LatestByUser(init)| ==> LatestRow(init, LatestByUser(init)[k])
    requires DistinctUsers(LatestByUser(init)) && UserIds(LatestByUser(init)) == UserIds(init)
    ensures LatestRow(init + [r], LatestByUser(init + [r])[k])
  {
    var p := LatestByUser(init);
    var c := IndexOfUser(p, r.userId);
    if k < |p| && (k != c || !(r.date > p[c].date)) {
      EntryKept(init, r, k);
    } else {
      EntryReplaced(init, r, k);
    }
  }

  /** An entry the last row does not displace stays, with its row still the latest. */
  lemma EntryKept(init: seq<AttendanceRecord>, r: AttendanceRecord, k: nat)
    requires var p := LatestByUser(init); var c := IndexOfUser(p, r.userId);
      k < |p| && (k != c || !(r.date > p[c].date))
    requires DistinctUsers(LatestByUser(init))
    requires LatestRow(init, LatestByUser(init)[k])
    ensures LatestRow(init + [r], LatestByUser(init + [r])[k])
  {
    var rows := init + [r];
    assert rows[..|rows| - 1] == init;
    var p := LatestByUser(init);
    var c := IndexOfUser(p, r.userId);
    var i :| 0 <= i < |init| && init[i] == p[k] && LatestOfUser(init, i);
    if r.userId == init[i].userId {
      assert c == k;
    }
    LatestKept(init, r, i);
    assert rows[i] == init[i] == LatestByUser(rows)[k];
  }

  /** An entry that is new or displaced is the last row, and that row is its user's latest. */
  lemma EntryReplaced(init: seq<AttendanceRecord>, r: AttendanceRecord, k: nat)
    requires k < |LatestByUser(init + [r])|
    requires var p := LatestByUser(init); var c := IndexOfUser(p, r.userId);
      !(k < |p| && (k != c || !(r.date > p[c].date)))
    requires UserIds(LatestByUser(init)) == UserIds(init)
    requires var p := LatestByUser(init); var c := IndexOfUser(p, r.userId);
      c >= 0 ==> LatestRow(init, p[c])
    ensures LatestRow(init + [r], LatestByUser(init + [r])[k])
  {
    var rows := init + [r];
    assert rows[..|rows| - 1] == init;
    var p := LatestByUser(init);
    var c := IndexOfUser(p, r.userId);
    forall j | 0 <= j < |init| && init[j].userId == r.userId ensures init[j].date < r.date {
      assert r.userId in UserIds(init);
      var i :| 0 <= i < |init| && init[i] == p[c] && LatestOfUser(init, i);
    }
    LatestAppended(init, r);
    assert rows[|init|] == r == LatestByUser(rows)[k];
  }

  lemma LatestKept(init: seq<AttendanceRecord>, r: AttendanceRecord, i: nat)
    requires i < |init| && LatestOfUser(init, i)
    requires r.userId == init[i].userId ==> r.date <= init[i].date
    ensures LatestOfUser(init + [r], i)
  {
    var rows := init + [r];
    assert forall j :: 0 <= j < |init| ==> rows[j] == init[j];
  }

  lemma LatestAppended(init: seq<AttendanceRecord>, r: AttendanceRecord)
    requires forall j :: 0 <= j < |init| && init[j].userId == r.userId ==> init[j].date < r.date
    ensures LatestOfUser(init + [r], |init|)
  {
    var rows := init + [r];
    assert forall j :: 0 <= j < |init| ==> rows[j] == init[j];
  }

  /** Over rows ordered newest first, the first row seen of each user is its latest one. */
  lemma {:induction false} FirstSeenIsLatest(rows: seq<AttendanceRecord>)
    requires DateDescending(rows)
    ensures FirstSeen(rows) == LatestByUser(rows)
  {
    if rows != [] {
      var init, r := rows[..|rows| - 1], rows[|rows| - 1];
      FirstSeenIsLatest(init);
      LatestByUserUsers(init);
      LatestByUserLatest(init);
      var p := LatestByUser(init);
      var c := IndexOfUser(p, r.userId);
      if c >= 0 {
        var i :| 0 <= i < |init| && init[i] == p[c] && LatestOfUser(init, i);
        assert rows[i] == init[i];
        assert p[c].date >= r.date;
      }
    }
  }

  /** The `has`/`set` loop: the percentages of the first row seen of each user, in first-appearance order. */
  method LatestPercentages(rows: seq<AttendanceRecord>) returns (values: seq<int>)
    ensures values == Percentages(FirstSeen(rows))
  {
    var seen: map<UserId, int> := map[];
    values := [];
    for i := 0 to |rows|
      invariant seen.Keys == UserIds(rows[..i])
      invariant values == Percentages(FirstSeen(rows[..i]))
    {
      var r := rows[i];
      assert rows[..i + 1][..i] == rows[..i];
      UserIdsSnoc(rows[..i + 1]);
      if r.userId !in seen {
        seen := seen[r.userId := r.overall];
        values := values + [r.overall];
      }
    }
    assert rows[..|rows|] == rows;
  }

  lemma IndexOfUserSnoc(entries: seq<AttendanceRecord>, r: AttendanceRecord, u: UserId)
    requires IndexOfUser(entries, r.userId) == -1
    ensures IndexOfUser(entries + [r], u) ==
      if u == r.userId then |entries| else IndexOfUser(entries, u)
  {
    var e := entries + [r];
    assert forall j :: 0 <= j < |entries| ==> e[j] == entries[j];
    assert e[..|entries|] == entries;
    UserIdsSnoc(e);
    var k, k2 := IndexOfUser(e, u), IndexOfUser(entries, u);
    if u == r.userId {
      assert e[|entries|].userId == u;
    } else if k2 >= 0 {
      assert e[k2].userId == u;
    }
  }

  lemma IndexOfUserReplace(entries: seq<AttendanceRecord>, c: nat, r: AttendanceRecord, u: UserId)
    requires c < |entries| && entries[c].userId == r.userId
    ensures IndexOfUser(entries[c := r], u) == IndexOfUser(entries, u)
  {
    var e := entries[c := r];
    assert forall j :: 0 <= j < |entries| ==> e[j].userId == entries[j].userId;
    assert UserIds(e) == UserIds(entries) by {
      forall v | v in UserIds(e) ensures v in UserIds(entries) {
        var i :| 0 <= i < |e| && e[i].userId == v;
        assert entries[i].userId == v;
      }
      forall v | v in UserIds(entries) ensures v in UserIds(e) {
        var i :| 0 <= i < |entries| && entries[i].userId == v;
        assert e[i].userId == v;
      }
    }
  }

  /** Processing one more row: append a new user, replace on a later date, otherwise keep. */
  lemma LatestByUserSnoc(init: seq<AttendanceRecord>, r: AttendanceRecord)
    ensures var p := LatestByUser(init); var k := IndexOfUser(p, r.userId);
      LatestByUser(init + [r]) == if k == -1 then p + [r] else if r.date > p[k].date then p[k := r] else p
  {
    assert (init + [r])[..|init|] == init;
  }

  /** The `get`/compare/`set` loop: per user the latest row by date, in first-appearance order. */
  method LatestRecords(rows: seq<AttendanceRecord>) returns (latest: seq<AttendanceRecord>)
    ensures latest == LatestByUser(rows)
  {
    var slot: map<UserId, nat> := map[];
    latest := [];
    for i := 0 to |rows|
      invariant latest == LatestByUser(rows[..i])
      invariant forall u :: u in slot <==> IndexOfUser(latest, u) >= 0
      invariant forall u :: u in slot ==> slot[u] == IndexOfUser(latest, u)
    {
      var r := rows[i];
      assert rows[..i + 1] == rows[..i] + [r];
      LatestByUserSnoc(rows[..i], r);
      if r.userId !in slot {
        forall u ensures IndexOfUser(latest + [r], u) == if u == r.userId then |latest| else IndexOfUser(latest, u) {
          IndexOfUserSnoc(latest, r, u);
        }
        slot := slot[r.userId := |latest|];
        latest := latest + [r];
      } else if r.date > latest[slot[r.userId]].date {
        var c := slot[r.userId];
        forall u ensures IndexOfUser(latest[c := r], u) == IndexOfUser(latest, u) {
          IndexOfUserReplace(latest, c, r, u);
        }
        latest := latest[c := r];
      }
    }
    assert rows[..|rows|] == rows;
  }
}
