/**
 * The admin reports page: the attendance upload handler with its running
 * "overall attendance percentage", the top present/absent/late cards, and the
 * high-attendance figure.
 */
module AdminReports {
  import opened Wrappers
  import opened Attendance
  import opened Seqs

  /** Every user's score starts here, whatever their history. */
  const Baseline := 100

  /** A latest percentage at or above this counts as high attendance. */
  const HighAttendance := 90

  /** `adjustOverall`: how much one status moves the score. */
  function Adjust(status: string): (delta: int)
    ensures delta == -20 <==> status == "Absent"
    ensures delta == -10 <==> status == "Late"
    ensures delta == 5 <==> status == "Present"
    ensures delta == 0 <==> status != "Absent" && status != "Late" && status != "Present"
    ensures delta == -20 || delta == -10 || delta == 0 || delta == 5
  {
    if status == "Absent" then -20
    else if status == "Late" then -10
    else if status == "Present" then 5
    else 0
  }

  /** `Math.min(Math.max(v, 0), 100)`: the point of [0, 100] nearest to `v`. */
  function Clamp(v: int): (c: int)
    ensures 0 <= c <= 100
    ensures 0 <= v <= 100 ==> c == v
    ensures v < 0 ==> c == 0
    ensures v > 100 ==> c == 100
  {
    if v < 0 then 0 else if v > 100 then 100 else v
  }

  /** One turn of the accumulation loop: adjust, then clamp. */
  function Step(overall: int, status: string): int {
    Clamp(overall + Adjust(status))
  }

  /** The score after `statuses`, folded one at a time from the baseline and clamped after each. */
  function Score(statuses: seq<string>): (s: int)
    ensures 0 <= s <= 100
  {
    if statuses == [] then Baseline
    else Step(Score(statuses[..|statuses| - 1]), statuses[|statuses| - 1])
  }

  /** How often `s` occurs in `statuses`. */
  function CountOf(statuses: seq<string>, s: string): nat {
    if statuses == [] then 0
    else CountOf(statuses[..|statuses| - 1], s) + (if statuses[|statuses| - 1] == s then 1 else 0)
  }

  /**
   * The loop of `handleSubmit`: the stored percentage is the clamped fold over
   * the user's existing statuses followed by one more clamped step for the new one.
   */
  method ComputeOverall(existing: seq<string>, newStatus: string) returns (overall: int)
    ensures overall == Score(existing + [newStatus])
    ensures 0 <= overall <= 100
  {
    overall := Baseline;
    if |existing| > 0 {
      for i := 0 to |existing|
        invariant overall == Score(existing[..i])
      {
        assert existing[..i + 1][..i] == existing[..i];
        overall := overall + Adjust(existing[i]);
        overall := Clamp(overall);
      }
    }
    assert existing[..|existing|] == existing;
    assert (existing + [newStatus])[..|existing|] == existing;
    overall := overall + Adjust(newStatus);
    overall := Clamp(overall);
  }

  /** Presence never lowers the score; an absence costs at most 20 and a late arrival at most 10. */
  lemma {:induction false} ScoreLowerBound(statuses: seq<string>)
    ensures Score(statuses) >= Baseline - 20 * CountOf(statuses, "Absent") - 10 * CountOf(statuses, "Late")
  {
    if statuses != [] {
      ScoreLowerBound(statuses[..|statuses| - 1]);
    }
  }

  /** A user never absent and never late keeps the full score. */
  lemma FullScoreWithoutAbsence(statuses: seq<string>)
    requires CountOf(statuses, "Absent") == 0 && CountOf(statuses, "Late") == 0
    ensures Score(statuses) == 100
  {
    ScoreLowerBound(statuses);
  }

  /** A status other than the three known ones leaves the score where it was. */
  lemma UnknownStatusNeutral(statuses: seq<string>, s: string)
    requires s != "Absent" && s != "Late" && s != "Present"
    ensures Score(statuses + [s]) == Score(statuses)
  {
    assert (statuses + [s])[..|statuses|] == statuses;
  }

  /** A history with a higher score stays at least as high after the same further statuses. */
  lemma {:induction false} ScoreMonotone(a: seq<string>, b: seq<string>, c: seq<string>)
    requires Score(a) <= Score(b)
    ensures Score(a + c) <= Score(b + c)
    decreases |c|
  {
    if c == [] {
      assert a + c == a && b + c == b;
    } else {
      var init := c[..|c| - 1];
      ScoreMonotone(a, b, init);
      assert (a + c)[..|a + c| - 1] == a + init;
      assert (b + c)[..|b + c| - 1] == b + init;
    }
  }

  /** Appending one status is one more step of the fold. */
  lemma ScoreSnoc(statuses: seq<string>, s: string)
    ensures Score(statuses + [s]) == Step(Score(statuses), s)
  {
    assert (statuses + [s])[..|statuses|] == statuses;
  }

  /** A first-ever record: Present is clamped from 105 to 100, Late gives 90, Absent 80. */
  lemma FirstRecordScores()
    ensures Score(["Present"]) == 100
    ensures Score(["Late"]) == 90
    ensures Score(["Absent"]) == 80
  {
    ScoreSnoc([], "Present");
    ScoreSnoc([], "Late");
    ScoreSnoc([], "Absent");
    assert [] + ["Present"] == ["Present"] && [] + ["Late"] == ["Late"] && [] + ["Absent"] == ["Absent"];
  }

  /** After a Present the score is 5 higher, or 100 when that would pass the ceiling. */
  lemma PresentStep(statuses: seq<string>)
    ensures Score(statuses + ["Present"]) == if Score(statuses) >= 95 then 100 else Score(statuses) + 5
  {
    ScoreSnoc(statuses, "Present");
    assert Adjust("Present") == 5;
  }

  /** Four Presents in a row from a score of at least 80 reach the full score of 100. */
  lemma FourPresents(h: seq<string>)
    requires Score(h) >= 80
    ensures Score(h + ["Present", "Present", "Present", "Present"]) == 100
  {
    var h1 := h + ["Present"];
    var h2 := h1 + ["Present"];
    var h3 := h2 + ["Present"];
    PresentStep(h);
    PresentStep(h1);
    PresentStep(h2);
    PresentStep(h3);
    assert h3 + ["Present"] == h + ["Present", "Present", "Present", "Present"];
  }

  /** The same statuses in another order give another score: Presents at the ceiling are lost. */
  lemma OrderMatters()
    ensures var ps := ["Present", "Present", "Present", "Present"];
      && multiset(ps + ["Absent"]) == multiset(["Absent"] + ps)
      && Score(ps + ["Absent"]) == 80
      && Score(["Absent"] + ps) == 100
  {
    var ps := ["Present", "Present", "Present", "Present"];
    FourPresents([]);
    assert [] + ps == ps;
    ScoreSnoc(ps, "Absent");
    assert Adjust("Absent") == -20;
    ScoreSnoc([], "Absent");
    assert [] + ["Absent"] == ["Absent"];
    FourPresents(["Absent"]);
  }

  datatype User = User(id: UserId, username: string)

  /** The position of the first user named `name`, or `|users|` when there is none. */
  function FirstNamed(users: seq<User>, name: string): (i: nat)
    ensures i <= |users|
    ensures forall j :: 0 <= j < i ==> users[j].username != name
    ensures i < |users| ==> users[i].username == name
  {
    if users == [] then 0
    else if users[0].username == name then 0
    else 1 + FirstNamed(users[1..], name)
  }

  /** `users.find(u => u.username === name)`: the first user with that name. */
  function FindUser(users: seq<User>, name: string): (found: Option<User>)
    ensures found.None? <==> forall i :: 0 <= i < |users| ==> users[i].username != name
    ensures found.Some? ==>
      exists i :: 0 <= i < |users| && users[i] == found.value && users[i].username == name
        && forall j :: 0 <= j < i ==> users[j].username != name
  {
    var i := FirstNamed(users, name);
    if i < |users| then Some(users[i]) else None
  }

  /**
   * The statuses of one user's rows, one per row, in table order: what
   * `.select('status').eq('user_id', id)` returns, up to its order.
   */
  function StatusesOf(rows: seq<AttendanceRecord>, id: UserId): (ss: seq<string>)
    ensures |ss| <= |rows|
    ensures |ss| == CountWhere(rows, OfUser(id))
  {
    if rows == [] then []
    else
      var init, r := rows[..|rows| - 1], rows[|rows| - 1];
      assert rows == init + [r];
      FilterConcat(init, [r], OfUser(id));
      StatusesOf(init, id) + (if r.userId == id then [r.status] else [])
  }

  /** The test of `.eq('user_id', id)`: whether a row belongs to the user. */
  function OfUser(id: UserId): AttendanceRecord -> bool {
    (r: AttendanceRecord) => r.userId == id
  }

  /** A status is read back exactly when some row of the user carries it. */
  lemma {:induction false} StatusesOfRows(rows: seq<AttendanceRecord>, id: UserId)
    ensures forall s :: s in StatusesOf(rows, id) <==>
      exists i :: 0 <= i < |rows| && rows[i].userId == id && rows[i].status == s
    decreases |rows|
  {
    if rows != [] {
      var init, last := rows[..|rows| - 1], rows[|rows| - 1];
      StatusesOfRows(init, id);
      forall s | exists i :: 0 <= i < |rows| && rows[i].userId == id && rows[i].status == s
        ensures s in StatusesOf(rows, id)
      {
        var i :| 0 <= i < |rows| && rows[i].userId == id && rows[i].status == s;
        if i < |rows| - 1 {
          assert init[i] == rows[i];
        }
      }
      forall s | s in StatusesOf(rows, id)
        ensures exists i :: 0 <= i < |rows| && rows[i].userId == id && rows[i].status == s
      {
        if s in StatusesOf(init, id) {
          var i :| 0 <= i < |init| && init[i].userId == id && init[i].status == s;
          assert rows[i] == init[i];
        } else {
          assert rows[|rows| - 1].userId == id && rows[|rows| - 1].status == s;
        }
      }
    }
  }

  /** The user's statuses do not depend on other users' rows. */
  lemma StatusesOfOther(rows: seq<AttendanceRecord>, r: AttendanceRecord, id: UserId)
    requires r.userId != id
    ensures StatusesOf(rows + [r], id) == StatusesOf(rows, id)
  {
    assert (rows + [r])[..|rows|] == rows;
  }

  /** `value || null`: an empty form field is stored as null. */
  function NullIfEmpty(s: string): (o: Option<string>)
    ensures o.None? <==> s == ""
  {
    if s == "" then None else Some(s)
  }

  /** The upload form; `hours` is None when its field is empty. */
  datatype AttendanceForm = AttendanceForm(
    name: string, date: Date, status: string, fromTime: string, toTime: string, hours: Option<real>)

  /** Which of the handler's two database calls fails, if any. */
  datatype StoreFailure = NoFailure | FetchFails | InsertFails

  datatype SubmitOutcome = UserNotFound | SubmitFailed | Submitted(record: AttendanceRecord)

  /** The row `handleSubmit` inserts for user `id` with the computed percentage. */
  function NewRecord(id: UserId, form: AttendanceForm, overall: int): (rec: AttendanceRecord)
    ensures rec.userId == id && rec.overall == overall
    ensures rec.date == form.date && rec.status == form.status && rec.hours == form.hours
    ensures rec.fromTime.None? <==> form.fromTime == ""
    ensures rec.fromTime.Some? ==> rec.fromTime.value == form.fromTime
    ensures rec.toTime.None? <==> form.toTime == ""
    ensures rec.toTime.Some? ==> rec.toTime.value == form.toTime
  {
    AttendanceRecord(id, form.date, form.status, NullIfEmpty(form.fromTime), NullIfEmpty(form.toTime), form.hours, overall)
  }

  /** The `attendance` table as the upload handler reads and extends it. */
  class AttendanceTable {
    var rows: seq<AttendanceRecord>

    /** Every stored percentage lies in [0, 100]. */
    predicate ScoresInRange()
      reads this
    {
      forall i :: 0 <= i < |rows| ==> 0 <= rows[i].overall <= 100
    }

    constructor (initial: seq<AttendanceRecord>)
      ensures rows == initial
    {
      rows := initial;
    }

    /**
     * `handleSubmit`: resolve the user by name, read their statuses, compute the
     * percentage and append exactly one row; an unknown name stops before any of it.
     * The select has no `order`, so `fetched` is the user's statuses in
     * whatever order the database returns them.
     */
    method Submit(users: seq<User>, form: AttendanceForm, fetched: seq<string>, failure: StoreFailure)
      returns (outcome: SubmitOutcome)
      requires FindUser(users, form.name).Some? ==>
        multiset(fetched) == multiset(StatusesOf(rows, FindUser(users, form.name).value.id))
      modifies this
      ensures FindUser(users, form.name).None? ==> outcome == UserNotFound && rows == old(rows)
      ensures FindUser(users, form.name).Some? && failure != NoFailure ==>
        outcome == SubmitFailed && rows == old(rows)
      ensures FindUser(users, form.name).Some? && failure == NoFailure ==>
        var id := FindUser(users, form.name).value.id;
        && outcome == Submitted(NewRecord(id, form, Score(fetched + [form.status])))
        && rows == old(rows) + [outcome.record]
      ensures old(ScoresInRange()) ==> ScoresInRange()
    {
      var user := FindUser(users, form.name);
      if user.None? {
        return UserNotFound;
      }
      var id := user.value.id;
      if failure == FetchFails {
        return SubmitFailed;
      }
      var overall := ComputeOverall(fetched, form.status);
      if failure == InsertFails {
        return SubmitFailed;
      }
      var record := NewRecord(id, form, overall);
      rows := rows + [record];
      outcome := Submitted(record);
    }
  }

  // ---- Top present / absent / late cards ----

  predicate SortedByOverall(s: seq<AttendanceRecord>) {
    forall i, j :: 0 <= i < j < |s| ==> s[i].overall <= s[j].overall
  }

  /** Places `x` after every element of `sorted` whose percentage is not above its own. */
  function InsertByOverall(sorted: seq<AttendanceRecord>, x: AttendanceRecord): seq<AttendanceRecord> {
    if sorted == [] || sorted[|sorted| - 1].overall <= x.overall then sorted + [x]
    else InsertByOverall(sorted[..|sorted| - 1], x) + [sorted[|sorted| - 1]]
  }

  /** `sort((a, b) => a.overall - b.overall)`: a stable sort, ascending by percentage. */
  function SortByOverall(s: seq<AttendanceRecord>): seq<AttendanceRecord> {
    if s == [] then [] else InsertByOverall(SortByOverall(s[..|s| - 1]), s[|s| - 1])
  }

  lemma {:induction false} InsertByOverallKeeps(sorted: seq<AttendanceRecord>, x: AttendanceRecord)
    ensures multiset(InsertByOverall(sorted, x)) == multiset(sorted) + multiset{x}
    decreases |sorted|
  {
    if sorted != [] && sorted[|sorted| - 1].overall > x.overall {
      InsertByOverallKeeps(sorted[..|sorted| - 1], x);
      assert sorted == sorted[..|sorted| - 1] + [sorted[|sorted| - 1]];
    }
  }

  lemma {:induction false} InsertByOverallSorted(sorted: seq<AttendanceRecord>, x: AttendanceRecord)
    requires SortedByOverall(sorted)
    ensures SortedByOverall(InsertByOverall(sorted, x))
    decreases |sorted|
  {
    if sorted != [] && sorted[|sorted| - 1].overall > x.overall {
      var init, last := sorted[..|sorted| - 1], sorted[|sorted| - 1];
      InsertByOverallSorted(init, x);
      InsertByOverallKeeps(init, x);
      var t := InsertByOverall(init, x);
      forall k | 0 <= k < |t| ensures t[k].overall <= last.overall {
        InsertedFrom(init, x, k);
        if t[k] != x {
          var m :| 0 <= m < |init| && init[m] == t[k];
          assert sorted[m] == t[k];
        }
      }
      AppendSorted(t, last);
    }
  }

  /** Each element after the insertion is `x` or an element of `sorted`. */
  lemma InsertedFrom(sorted: seq<AttendanceRecord>, x: AttendanceRecord, k: nat)
    requires k < |InsertByOverall(sorted, x)|
    ensures InsertByOverall(sorted, x)[k] == x || InsertByOverall(sorted, x)[k] in sorted
  {
    InsertByOverallKeeps(sorted, x);
    assert InsertByOverall(sorted, x)[k] in multiset(InsertByOverall(sorted, x));
  }

  lemma AppendSorted(t: seq<AttendanceRecord>, last: AttendanceRecord)
    requires SortedByOverall(t)
    requires forall k :: 0 <= k < |t| ==> t[k].overall <= last.overall
    ensures SortedByOverall(t + [last])
  {
  }

  /** The sort orders by percentage. */
  lemma {:induction false} SortByOverallSorted(s: seq<AttendanceRecord>)
    ensures SortedByOverall(SortByOverall(s))
  {
    if s != [] {
      SortByOverallSorted(s[..|s| - 1]);
      InsertByOverallSorted(SortByOverall(s[..|s| - 1]), s[|s| - 1]);
    }
  }

  /** The sort keeps exactly the same records, duplicates included. */
  lemma {:induction false} SortByOverallKeeps(s: seq<AttendanceRecord>)
    ensures multiset(SortByOverall(s)) == multiset(s)
  {
    if s != [] {
      SortByOverallKeeps(s[..|s| - 1]);
      InsertByOverallKeeps(SortByOverall(s[..|s| - 1]), s[|s| - 1]);
      assert s == s[..|s| - 1] + [s[|s| - 1]];
    }
  }

  /** The records with percentage `v`, in their order in `s`. */
  function WithOverall(s: seq<AttendanceRecord>, v: int): (r: seq<AttendanceRecord>)
    ensures |r| <= |s|
    ensures forall k :: 0 <= k < |r| ==> r[k].overall == v
  {
    if s == [] then []
    else WithOverall(s[..|s| - 1], v) + (if s[|s| - 1].overall == v then [s[|s| - 1]] else [])
  }

  /** Inserting `x` puts it after every record with its percentage. */
  lemma {:induction false} InsertByOverallStable(sorted: seq<AttendanceRecord>, x: AttendanceRecord, v: int)
    ensures WithOverall(InsertByOverall(sorted, x), v) ==
      WithOverall(sorted, v) + (if x.overall == v then [x] else [])
    decreases |sorted|
  {
    if sorted == [] || sorted[|sorted| - 1].overall <= x.overall {
      assert (sorted + [x])[..|sorted|] == sorted;
    } else {
      var init, last := sorted[..|sorted| - 1], sorted[|sorted| - 1];
      var t := InsertByOverall(init, x);
      InsertByOverallStable(init, x, v);
      assert (t + [last])[..|t|] == t;
    }
  }

  /**
   * The sort is stable: for every percentage, the records with that
   * percentage come out in their input order. Among tied records the first
   * card therefore goes to the one that comes first in the input.
   */
  lemma {:induction false} SortByOverallStable(s: seq<AttendanceRecord>, v: int)
    ensures WithOverall(SortByOverall(s), v) == WithOverall(s, v)
  {
    if s != [] {
      SortByOverallStable(s[..|s| - 1], v);
      InsertByOverallStable(SortByOverall(s[..|s| - 1]), s[|s| - 1], v);
    }
  }

  /**
   * Where `x` lands: after a prefix ending in a percentage not above its own,
   * before a suffix of larger percentages.
   */
  lemma {:induction false} InsertAt(sorted: seq<AttendanceRecord>, x: AttendanceRecord, j: nat)
    requires j <= |sorted|
    requires j == 0 || sorted[j - 1].overall <= x.overall
    requires forall k :: j <= k < |sorted| ==> sorted[k].overall > x.overall
    ensures InsertByOverall(sorted, x) == sorted[..j] + [x] + sorted[j..]
    decreases |sorted|
  {
    if j == |sorted| {
      assert sorted[..j] == sorted && sorted[j..] == [];
    } else {
      var init, last := sorted[..|sorted| - 1], sorted[|sorted| - 1];
      InsertAt(init, x, j);
      assert init[..j] == sorted[..j];
      assert init[j..] + [last] == sorted[j..];
    }
  }

  /** The body of the insertion sort: moves `a[i]` down into the sorted prefix `a[..i]`. */
  method InsertInPlace(a: array<AttendanceRecord>, i: nat)
    requires i < a.Length
    modifies a
    ensures a[..i + 1] == InsertByOverall(old(a[..i]), old(a[i]))
    ensures forall k :: i < k < a.Length ==> a[k] == old(a[k])
  {
    ghost var sorted := a[..i];
    var x := a[i];
    var j := i;
    while j > 0 && a[j - 1].overall > x.overall
      invariant 0 <= j <= i
      invariant forall k :: 0 <= k < j ==> a[k] == sorted[k]
      invariant forall k :: j < k <= i ==> a[k] == sorted[k - 1]
      invariant forall k :: i < k < a.Length ==> a[k] == old(a[k])
      invariant forall k :: j <= k < i ==> sorted[k].overall > x.overall
    {
      a[j] := a[j - 1];
      j := j - 1;
    }
    InsertAt(sorted, x, j);
    a[j] := x;
    Spliced(a[..i + 1], sorted, j, x);
  }

  /** A sequence that agrees with `sorted` around a hole at `j` holding `x` is that insertion. */
  lemma Spliced(t: seq<AttendanceRecord>, sorted: seq<AttendanceRecord>, j: nat, x: AttendanceRecord)
    requires j <= |sorted| && |t| == |sorted| + 1
    requires forall k :: 0 <= k < j ==> t[k] == sorted[k]
    requires t[j] == x
    requires forall k :: j < k < |t| ==> t[k] == sorted[k - 1]
    ensures t == sorted[..j] + [x] + sorted[j..]
  {
  }

  /** `latestAttendanceArray.sort(...)`, in place: insertion sort, stable. */
  method SortInPlace(a: array<AttendanceRecord>)
    modifies a
    ensures a[..] == SortByOverall(old(a[..]))
  {
    ghost var input := a[..];
    for i := 0 to a.Length
      invariant a[..i] == SortByOverall(input[..i])
      invariant forall k :: i <= k < a.Length ==> a[k] == input[k]
    {
      InsertInPlace(a, i);
      assert input[..i + 1][..i] == input[..i];
    }
    assert input[..a.Length] == input;
  }

  predicate IsLate(r: AttendanceRecord) {
    r.status == "Late"
  }

  /** The latest record of each user, sorted ascending by percentage. */
  function SortedLatest(rows: seq<AttendanceRecord>): seq<AttendanceRecord> {
    SortByOverall(LatestByUser(rows))
  }

  /**
   * `sortedByOverall[0] || null`: null exactly when there are no rows,
   * otherwise a latest record with the lowest percentage.
   */
  function TopAbsentRecord(rows: seq<AttendanceRecord>): (top: Option<AttendanceRecord>)
    ensures top.None? <==> rows == []
    ensures top.Some? ==>
      && top.value in LatestByUser(rows)
      && forall e :: e in LatestByUser(rows) ==> top.value.overall <= e.overall
  {
    var s := SortedLatest(rows);
    SortedLatestFacts(rows);
    SortedEnds(s);
    if |s| > 0 then Some(s[0]) else None
  }

  /**
   * The last element of the sorted list, or null: null exactly when there
   * are no rows, otherwise a latest record with the highest percentage.
   */
  function TopPresentRecord(rows: seq<AttendanceRecord>): (top: Option<AttendanceRecord>)
    ensures top.None? <==> rows == []
    ensures top.Some? ==>
      && top.value in LatestByUser(rows)
      && forall e :: e in LatestByUser(rows) ==> e.overall <= top.value.overall
  {
    var s := SortedLatest(rows);
    SortedLatestFacts(rows);
    SortedEnds(s);
    if |s| > 0 then Some(s[|s| - 1]) else None
  }

  /**
   * The first `Late` record of the sorted list, or null: null exactly when no
   * user's latest record is `Late`, otherwise a `Late` latest record with the
   * lowest percentage among those.
   */
  function TopLateRecord(rows: seq<AttendanceRecord>): (top: Option<AttendanceRecord>)
    ensures top.None? <==> forall e :: e in LatestByUser(rows) ==> !IsLate(e)
    ensures top.Some? ==>
      && top.value in LatestByUser(rows)
      && IsLate(top.value)
      && forall e :: e in LatestByUser(rows) && IsLate(e) ==> top.value.overall <= e.overall
  {
    var s := SortedLatest(rows);
    SortedLatestFacts(rows);
    FirstLateIsLowest(s);
    NoLateLeft(s);
    var late := Filter(s, IsLate);
    if |late| > 0 then Some(late[0]) else None
  }

  /** In a sorted list the first element is a lowest one and the last a highest one. */
  lemma SortedEnds(s: seq<AttendanceRecord>)
    requires SortedByOverall(s)
    ensures |s| > 0 ==> forall e :: e in s ==> s[0].overall <= e.overall <= s[|s| - 1].overall
  {
    if |s| > 0 {
      forall e | e in s ensures s[0].overall <= e.overall <= s[|s| - 1].overall {
        var k :| 0 <= k < |s| && s[k] == e;
      }
    }
  }

  datatype TopUser = TopUser(id: UserId, username: string, overall: int)

  /** `mapRecordToUser`: no card without a record or without the joined user name. */
  function ToTopUser(r: Option<AttendanceRecord>, usernames: map<UserId, string>): (u: Option<TopUser>)
    ensures u.None? <==> r.None? || r.value.userId !in usernames
    ensures u.Some? ==>
      u.value.id == r.value.userId && u.value.username == usernames[r.value.userId] && u.value.overall == r.value.overall
  {
    if r.None? || r.value.userId !in usernames then None
    else Some(TopUser(r.value.userId, usernames[r.value.userId], r.value.overall))
  }

  /** The sorted list holds the same records as the latest-per-user list, and is sorted. */
  lemma SortedLatestFacts(rows: seq<AttendanceRecord>)
    ensures forall e :: e in SortedLatest(rows) <==> e in LatestByUser(rows)
    ensures SortedByOverall(SortedLatest(rows))
    ensures SortedLatest(rows) == [] <==> rows == []
  {
    var l := LatestByUser(rows);
    SortByOverallKeeps(l);
    SortByOverallSorted(l);
    SortedLatestEmpty(rows);
    forall e ensures e in SortedLatest(rows) <==> e in l {
      assert e in SortedLatest(rows) <==> e in multiset(SortedLatest(rows));
    }
  }

  /** There is a latest record exactly when there is a row. */
  lemma SortedLatestEmpty(rows: seq<AttendanceRecord>)
    ensures SortedLatest(rows) == [] <==> rows == []
  {
    var l := LatestByUser(rows);
    SortByOverallKeeps(l);
    assert |SortByOverall(l)| == |multiset(SortByOverall(l))| == |l|;
    if rows != [] {
      var p := LatestByUser(rows[..|rows| - 1]);
      var k := IndexOfUser(p, rows[|rows| - 1].userId);
      assert k != -1 ==> p != [];
    }
  }

  /** In a sorted list, the first `Late` record is a `Late` record with the lowest percentage. */
  lemma FirstLateIsLowest(s: seq<AttendanceRecord>)
    requires SortedByOverall(s)
    ensures var late := Filter(s, IsLate);
      |late| > 0 ==>
        (late[0] in s && IsLate(late[0]) &&
         forall e :: e in s && IsLate(e) ==> late[0].overall <= e.overall)
  {
    var late := Filter(s, IsLate);
    FilterFacts(s, IsLate);
    FilterSorted(s);
    if |late| > 0 {
      forall e | e in s && IsLate(e) ensures late[0].overall <= e.overall {
        var k :| 0 <= k < |s| && s[k] == e;
        var m :| 0 <= m < |late| && late[m] == s[k];
      }
    }
  }

  /** Without a `Late` record the filtered list is empty, and conversely. */
  lemma NoLateLeft(s: seq<AttendanceRecord>)
    ensures |Filter(s, IsLate)| == 0 <==> forall e :: e in s ==> !IsLate(e)
  {
    FilterFacts(s, IsLate);
  }

  /** Filtering a sorted list keeps it sorted. */
  lemma {:induction false} FilterSorted(s: seq<AttendanceRecord>)
    requires SortedByOverall(s)
    ensures SortedByOverall(Filter(s, IsLate))
  {
    if s != [] {
      FilterSorted(s[1..]);
      FilterFacts(s[1..], IsLate);
      var t := Filter(s[1..], IsLate);
      forall k | 0 <= k < |t| ensures s[0].overall <= t[k].overall {
        var m :| 0 <= m < |s[1..]| && s[1..][m] == t[k];
        assert s[m + 1] == t[k];
      }
    }
  }

  /**
   * `fetchTopUsers`: reduce to the latest record per user, copy the map's
   * values to an array, sort it in place, and pick the three cards.
   * `fetched` is `None` when the read fails or returns no data; the effect
   * runs once, at mount, so the cards are then still at their initial null.
   */
  method FetchTopUsers(fetched: Option<seq<AttendanceRecord>>, usernames: map<UserId, string>)
    returns (topPresent: Option<TopUser>, topAbsent: Option<TopUser>, topLate: Option<TopUser>)
    ensures fetched.None? ==> topPresent.None? && topAbsent.None? && topLate.None?
    ensures fetched.Some? ==> topAbsent == ToTopUser(TopAbsentRecord(fetched.value), usernames)
    ensures fetched.Some? ==> topPresent == ToTopUser(TopPresentRecord(fetched.value), usernames)
    ensures fetched.Some? ==> topLate == ToTopUser(TopLateRecord(fetched.value), usernames)
  {
    if fetched.None? {
      return None, None, None;
    }
    var rows := fetched.value;
    var latest := LatestRecords(rows);
    var a := new AttendanceRecord[|latest|](i requires 0 <= i < |latest| => latest[i]);
    assert a[..] == latest;
    SortInPlace(a);
    var sorted := a[..];
    var absentRecord := if |sorted| > 0 then Some(sorted[0]) else None;
    var presentRecord := if |sorted| > 0 then Some(sorted[|sorted| - 1]) else None;
    var lateUsers := Filter(sorted, IsLate);
    var lateRecord := if |lateUsers| > 0 then Some(lateUsers[0]) else None;
    topPresent := ToTopUser(presentRecord, usernames);
    topAbsent := ToTopUser(absentRecord, usernames);
    topLate := ToTopUser(lateRecord, usernames);
  }

  // ---- High attendance figure ----

  predicate IsHigh(p: int) {
    p >= HighAttendance
  }

  /** The users whose first row, in the order given, has a high percentage. */
  ghost function HighUsers(rows: seq<AttendanceRecord>): set<UserId> {
    set i | 0 <= i < |rows| && FirstOfUser(rows, i) && IsHigh(rows[i].overall) :: rows[i].userId
  }

  lemma HighUsersSnoc(rows: seq<AttendanceRecord>)
    requires rows != []
    ensures var init, r := rows[..|rows| - 1], rows[|rows| - 1];
      HighUsers(rows) == HighUsers(init) +
        (if r.userId !in UserIds(init) && IsHigh(r.overall) then {r.userId} else {})
  {
    HighUsersSnocOld(rows);
    HighUsersSnocNew(rows);
  }

  lemma HighUsersSnocOld(rows: seq<AttendanceRecord>)
    requires rows != []
    ensures HighUsers(rows[..|rows| - 1]) <= HighUsers(rows)
    ensures var r := rows[|rows| - 1];
      r.userId !in UserIds(rows[..|rows| - 1]) && IsHigh(r.overall) ==> r.userId in HighUsers(rows)
  {
    var init, r := rows[..|rows| - 1], rows[|rows| - 1];
    forall v | v in HighUsers(init) ensures v in HighUsers(rows) {
      var i :| 0 <= i < |init| && FirstOfUser(init, i) && IsHigh(init[i].overall) && init[i].userId == v;
      assert rows[i] == init[i];
      assert FirstOfUser(rows, i);
    }
    if r.userId !in UserIds(init) && IsHigh(r.overall) {
      assert FirstOfUser(rows, |init|);
    }
  }

  lemma HighUsersSnocNew(rows: seq<AttendanceRecord>)
    requires rows != []
    ensures var init, r := rows[..|rows| - 1], rows[|rows| - 1];
      HighUsers(rows) <= HighUsers(init) +
        (if r.userId !in UserIds(init) && IsHigh(r.overall) then {r.userId} else {})
  {
    var init, r := rows[..|rows| - 1], rows[|rows| - 1];
    forall v | v in HighUsers(rows)
      ensures v in HighUsers(init) || (v == r.userId && r.userId !in UserIds(init) && IsHigh(r.overall))
    {
      var i :| 0 <= i < |rows| && FirstOfUser(rows, i) && IsHigh(rows[i].overall) && rows[i].userId == v;
      HighIndex(rows, i);
    }
  }

  /** A high first row is a high first row of the earlier rows, or the last row for a new user. */
  lemma HighIndex(rows: seq<AttendanceRecord>, i: nat)
    requires i < |rows| && FirstOfUser(rows, i) && IsHigh(rows[i].overall)
    ensures var init, r := rows[..|rows| - 1], rows[|rows| - 1];
      rows[i].userId in HighUsers(init) || (i == |init| && r.userId !in UserIds(init))
  {
    var init, r := rows[..|rows| - 1], rows[|rows| - 1];
    if i < |init| {
      assert init[i] == rows[i];
      assert FirstOfUser(init, i);
    } else {
      forall j | 0 <= j < |init| ensures init[j].userId != r.userId {
        assert rows[j] == init[j];
      }
    }
  }

  lemma HighUsersWithin(rows: seq<AttendanceRecord>)
    ensures HighUsers(rows) <= UserIds(rows)
  {
  }

  /** Counting high values of the first-seen map counts the users whose first row is high. */
  lemma {:induction false} HighCountIsHighUsers(rows: seq<AttendanceRecord>)
    ensures |Filter(Percentages(FirstSeen(rows)), IsHigh)| == |HighUsers(rows)|
  {
    if rows == [] {
      assert HighUsers(rows) == {};
    } else {
      var init, r := rows[..|rows| - 1], rows[|rows| - 1];
      HighCountIsHighUsers(init);
      HighUsersSnoc(rows);
      HighUsersWithin(init);
      var p := FirstSeen(init);
      if r.userId !in UserIds(init) {
        HighCountSnoc(p, r);
        assert r.userId !in HighUsers(init);
      }
    }
  }

  /** One more first-seen entry adds one to the count exactly when its percentage is high. */
  lemma HighCountSnoc(p: seq<AttendanceRecord>, r: AttendanceRecord)
    ensures |Filter(Percentages(p + [r]), IsHigh)| == |Filter(Percentages(p), IsHigh)| + (if IsHigh(r.overall) then 1 else 0)
  {
    assert Percentages(p + [r]) == Percentages(p) + [r.overall];
    FilterConcat(Percentages(p), [r.overall], IsHigh);
    assert Filter([r.overall], IsHigh) == if IsHigh(r.overall) then [r.overall] else [];
  }

  /**
   * The high-attendance figure of `fetchKpiMetrics`: over rows ordered newest first,
   * the number of users whose latest percentage is at least 90. `fetched` is
   * `None` when this read, or an earlier one in the same `try`, fails; the
   * figure then keeps its `previous` value. A null `data` without an error is `Some([])`.
   */
  method HighAttendanceCount(fetched: Option<seq<AttendanceRecord>>, previous: nat) returns (count: nat)
    ensures fetched.None? ==> count == previous
    ensures fetched.Some? ==> count == |HighUsers(fetched.value)|
    ensures fetched.Some? ==> count <= |UserIds(fetched.value)|
  {
    if fetched.None? {
      return previous;
    }
    var rows := fetched.value;
    var values := LatestPercentages(rows);
    count := |Filter(values, IsHigh)|;
    HighCountIsHighUsers(rows);
    HighUsersWithin(rows);
    assert |HighUsers(rows)| <= |UserIds(rows)| by {
      SubsetCard(HighUsers(rows), UserIds(rows));
    }
  }

  lemma SubsetCard<T>(a: set<T>, b: set<T>)
    requires a <= b
    ensures |a| <= |b|
  {
    assert b == a + (b - a);
  }
}
