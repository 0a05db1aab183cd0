/** The key figures of the admin dashboard: average latest attendance and resume compliance. */
module AdminDashboard {
  import opened Wrappers
  import opened Attendance
  import opened Metrics

  /** The mean of each user's first-seen percentage, or 0 when the map is empty. */
  function LatestAverage(rows: seq<AttendanceRecord>): real {
    var latest := Percentages(FirstSeen(rows));
    if |latest| > 0 then Mean(latest) else 0.0
  }

  /**
   * `fetchKpiData`: fill the map with `has`/`set` over the rows, then take the
   * mean of its values, guarded for the empty map. `fetched` is `None` when
   * this read, or an earlier one in the same `try`, fails; the figure then
   * keeps its `previous` value. A null `data` without an error is `Some([])`.
   */
  method AverageAttendance(fetched: Option<seq<AttendanceRecord>>, previous: real) returns (avg: real)
    ensures fetched.None? ==> avg == previous
    ensures fetched.Some? ==> avg == LatestAverage(fetched.value)
    ensures fetched == Some([]) ==> avg == 0.0
  {
    if fetched.None? {
      return previous;
    }
    var rows := fetched.value;
    var values := LatestPercentages(rows);
    if |values| > 0 {
      avg := Sum(values) as real / |values| as real;
    } else {
      avg := 0.0;
    }
  }

  /** The map has an entry exactly when there are rows. */
  lemma LatestAverageEmpty(rows: seq<AttendanceRecord>)
    ensures |FirstSeen(rows)| == |UserIds(rows)|
    ensures rows == [] <==> FirstSeen(rows) == []
  {
    FirstSeenUsers(rows);
    if rows != [] {
      assert rows[0].userId in UserIds(rows);
    }
  }

  /** When every stored percentage lies in [lo, hi], so does the average (for a non-empty table). */
  lemma LatestAverageBounds(rows: seq<AttendanceRecord>, lo: int, hi: int)
    requires rows != []
    requires forall i :: 0 <= i < |rows| ==> lo <= rows[i].overall <= hi
    ensures lo as real <= LatestAverage(rows) <= hi as real
  {
    LatestAverageEmpty(rows);
    FirstSeenFirst(rows);
    var f := FirstSeen(rows);
    var ps := Percentages(f);
    forall k | 0 <= k < |ps| ensures lo <= ps[k] <= hi {
      var i :| 0 <= i < |rows| && rows[i] == f[k] && FirstOfUser(rows, i);
    }
    MeanBounds(ps, lo, hi);
  }

  /** Over rows ordered newest first, the average is that of each user's latest percentage. */
  lemma LatestAverageOfLatest(rows: seq<AttendanceRecord>)
    requires DateDescending(rows)
    requires rows != []
    ensures |LatestByUser(rows)| == |UserIds(rows)| > 0
    ensures LatestAverage(rows) == Mean(Percentages(LatestByUser(rows)))
  {
    FirstSeenIsLatest(rows);
    LatestAverageEmpty(rows);
  }

  /** The resume-compliance card: 0% without consultants, else the share rounded half up. */
  function ResumeCompliance(resumes: nat, consultants: nat): (pct: nat)
    ensures consultants == 0 ==> pct == 0
    ensures consultants > 0 ==>
      2 * consultants * pct <= 200 * resumes + consultants < 2 * consultants * pct + 2 * consultants
    ensures resumes <= consultants ==> pct <= 100
    ensures 0 < resumes == consultants ==> pct == 100
  {
    if consultants > 0 then RoundPercent(resumes, consultants) else 0
  }
}
