/** The consultant attendance page: the recent-attendance list, the status badge and the monthly summary. */
module ConsultantAttendance {
  import opened Wrappers
  import opened Text
  import opened Metrics

  /** One attendance row of the signed-in consultant; `date` is `attendance_date`. */
  datatype AttendanceEntry = AttendanceEntry(
    date: int, status: string, fromTime: Option<string>, toTime: Option<string>, hours: Option<real>)

  /** The `map` of `fetchAttendance`: the same rows, in order, with the status lower-cased. */
  function RecentAttendance(rows: seq<AttendanceEntry>): (view: seq<AttendanceEntry>)
    ensures |view| == |rows|
    ensures forall k :: 0 <= k < |rows| ==>
      && view[k].status == Lower(rows[k].status)
      && (view[k].date, view[k].fromTime, view[k].toTime, view[k].hours)
         == (rows[k].date, rows[k].fromTime, rows[k].toTime, rows[k].hours)
  {
    seq(|rows|, k requires 0 <= k < |rows| => rows[k].(status := Lower(rows[k].status)))
  }

  /**
   * The list `fetchAttendance` leaves in `recentAttendance`. `fetched` is `None`
   * when there is no stored wallet, the user lookup fails, the attendance read
   * fails or an error is thrown; every one of those paths sets the list to `[]`.
   */
  function RecentList(fetched: Option<seq<AttendanceEntry>>): (view: seq<AttendanceEntry>)
    ensures fetched.None? ==> view == []
    ensures fetched.Some? ==> |view| == |fetched.value|
    ensures view == [] <==> fetched.None? || fetched.value == []
    ensures fetched.Some? ==> forall k :: 0 <= k < |view| ==>
      view[k].status == Lower(fetched.value[k].status) && view[k].date == fetched.value[k].date
  {
    if fetched.None? then [] else RecentAttendance(fetched.value)
  }

  /** The view is already normalised: mapping it again changes nothing. */
  lemma RecentAttendanceIdempotent(rows: seq<AttendanceEntry>)
    ensures RecentAttendance(RecentAttendance(rows)) == RecentAttendance(rows)
  {
    var view := RecentAttendance(rows);
    forall k | 0 <= k < |rows| ensures RecentAttendance(view)[k] == view[k] {
      LowerIdempotent(rows[k].status);
    }
  }

  datatype StatusBadge = PresentBadge | AbsentBadge | LateBadge | UnknownBadge

  /** `getStatusBadge`: the three known lower-case statuses, everything else Unknown. */
  function BadgeFor(status: string): (b: StatusBadge)
    ensures b == PresentBadge <==> status == "present"
    ensures b == AbsentBadge <==> status == "absent"
    ensures b == LateBadge <==> status == "late"
    ensures b == UnknownBadge <==> status != "present" && status != "absent" && status != "late"
  {
    if status == "present" then PresentBadge
    else if status == "absent" then AbsentBadge
    else if status == "late" then LateBadge
    else UnknownBadge
  }

  /** A row of the recent list gets its badge whatever the stored capitalisation. */
  lemma BadgeIgnoresCase(rows: seq<AttendanceEntry>, k: nat)
    requires k < |rows| && rows[k].status == "Present"
    ensures BadgeFor(RecentAttendance(rows)[k].status) == PresentBadge
  {
    assert Lower("Present") == "present";
  }

  /** The number of rows whose lower-cased status is `s`. */
  function CountStatus(rows: seq<AttendanceEntry>, s: string): nat {
    if rows == [] then 0
    else CountStatus(rows[..|rows| - 1], s) + (if Lower(rows[|rows| - 1].status) == s then 1 else 0)
  }

  datatype Tally = Tally(present: nat, absent: nat, late: nat) {
    function Total(): nat {
      present + absent + late
    }
  }

  /** The three counters of the monthly summary, each counted on its own. */
  function TallyOf(rows: seq<AttendanceEntry>): Tally {
    Tally(CountStatus(rows, "present"), CountStatus(rows, "absent"), CountStatus(rows, "late"))
  }

  /** One more row raises at most one counter, the one its lower-cased status names. */
  lemma TallySnoc(rows: seq<AttendanceEntry>, r: AttendanceEntry)
    ensures var t, u, s := TallyOf(rows), TallyOf(rows + [r]), Lower(r.status);
      && u.present == t.present + (if s == "present" then 1 else 0)
      && u.absent == t.absent + (if s == "absent" then 1 else 0)
      && u.late == t.late + (if s == "late" then 1 else 0)
      && t.Total() <= u.Total() <= t.Total() + 1
  {
    assert (rows + [r])[..|rows|] == rows;
  }

  /** The counted days never exceed the fetched rows. */
  lemma {:induction false} TallyAtMostRows(rows: seq<AttendanceEntry>)
    ensures TallyOf(rows).Total() <= |rows|
  {
    if rows != [] {
      var init := rows[..|rows| - 1];
      TallyAtMostRows(init);
      TallySnoc(init, rows[|rows| - 1]);
      assert init + [rows[|rows| - 1]] == rows;
    }
  }

  /** `totalDays > 0 ? Math.round((present / totalDays) * 100) : 0`. */
  function MonthlyPercent(t: Tally): (pct: nat)
    ensures t.Total() == 0 ==> pct == 0
    ensures pct <= 100
    ensures t.Total() > 0 ==> 2 * t.Total() * pct <= 200 * t.present + t.Total() < 2 * t.Total() * (pct + 1)
  {
    if t.Total() > 0 then RoundPercent(t.present, t.Total()) else 0
  }

  /** A month with days but no absence and no late arrival shows 100%. */
  lemma PerfectMonth(t: Tally)
    requires t.present > 0 && t.absent == 0 && t.late == 0
    ensures MonthlyPercent(t) == 100
  {
  }

  /** Below 200 counted days, 100% is shown only for a month without absence or late arrival. */
  lemma HundredMeansPerfect(t: Tally)
    requires t.Total() < 200
    requires MonthlyPercent(t) == 100
    ensures t.absent == 0 && t.late == 0
  {
    RoundPercentFull(t.present, t.Total());
  }

  /** From 200 days on, rounding alone can show 100%: 199 present and 1 absent is 99.5%, shown as 100%. */
  lemma RoundingShowsHundred()
    ensures MonthlyPercent(Tally(199, 1, 0)) == 100
  {
    RoundPercentFull(199, 200);
  }

  /**
   * What `fetchMonthlySummary` gets back: no stored wallet, a failed user or
   * attendance read (or a thrown error), or the month's rows.
   */
  datatype MonthRead = NoWallet | ReadFailed | MonthRows(rows: seq<AttendanceEntry>)

  /** The counters and percentage of `monthlySummary`; `totalHours` is a floating-point display value. */
  datatype Summary = Summary(present: nat, absent: nat, late: nat, percent: nat)

  /**
   * `fetchMonthlySummary`: one pass over the month's rows incrementing the
   * counter named by each lower-cased status, then the guarded percentage.
   * Without a wallet the summary is reset to zeros; after a failed read it
   * keeps its `previous` value.
   */
  method MonthlySummary(read: MonthRead, previous: Summary) returns (summary: Summary)
    ensures read.NoWallet? ==> summary == Summary(0, 0, 0, 0)
    ensures read.ReadFailed? ==> summary == previous
    ensures read.MonthRows? ==> Tally(summary.present, summary.absent, summary.late) == TallyOf(read.rows)
    ensures read.MonthRows? ==> summary.present + summary.absent + summary.late <= |read.rows|
    ensures read.MonthRows? ==> summary.percent == MonthlyPercent(TallyOf(read.rows))
  {
    if read.NoWallet? {
      return Summary(0, 0, 0, 0);
    } else if read.ReadFailed? {
      return previous;
    }
    var rows := read.rows;
    var present, absent, late := 0, 0, 0;
    for i := 0 to |rows|
      invariant Tally(present, absent, late) == TallyOf(rows[..i])
    {
      TallySnoc(rows[..i], rows[i]);
      assert rows[..i] + [rows[i]] == rows[..i + 1];
      var s := Lower(rows[i].status);
      if s == "present" {
        present := present + 1;
      } else if s == "absent" {
        absent := absent + 1;
      } else if s == "late" {
        late := late + 1;
      }
    }
    assert rows[..|rows|] == rows;
    TallyAtMostRows(rows);
    var totalDays := present + absent + late;
    var percent := if totalDays > 0 then RoundPercent(present, totalDays) else 0;
    summary := Summary(present, absent, late, percent);
  }
}
