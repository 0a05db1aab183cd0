/** The admin consultants page: the job-posting payload, the consultant filter and the attendance average. */
module AdminConsultants {
  import opened Wrappers
  import opened Text
  import opened Seqs
  import opened Metrics

  predicate NonEmptyText(s: string) {
    |s| > 0
  }

  /** Each piece trimmed, in order. */
  function TrimAll(parts: seq<string>): (r: seq<string>)
    ensures |r| == |parts| && forall k :: 0 <= k < |parts| ==> r[k] == Trim(parts[k])
  {
    seq(|parts|, k requires 0 <= k < |parts| => Trim(parts[k]))
  }

  /**
   * `required_skills.split(',').map(s => s.trim()).filter(s => s.length > 0)`:
   * the trimmed comma pieces, in order, each non-blank piece kept once and the
   * blank ones dropped.
   */
  function SplitSkills(raw: string): (skills: seq<string>)
    ensures forall k :: 0 <= k < |skills| ==> skills[k] != [] && Trimmed(skills[k]) && ',' !in skills[k]
    ensures IsSubsequence(skills, TrimAll(Split(raw, ',')))
    ensures forall k :: 0 <= k < |Split(raw, ',')| && Trim(Split(raw, ',')[k]) != [] ==>
      Trim(Split(raw, ',')[k]) in skills
    ensures |skills| == CountWhere(TrimAll(Split(raw, ',')), NonEmptyText)
  {
    SkillFacts(Split(raw, ','));
    Filter(TrimAll(Split(raw, ',')), NonEmptyText)
  }

  /** The kept pieces are clean, come in order, and every non-blank piece is among them. */
  lemma SkillFacts(parts: seq<string>)
    requires forall k :: 0 <= k < |parts| ==> ',' !in parts[k]
    ensures var skills := Filter(TrimAll(parts), NonEmptyText);
      && (forall k :: 0 <= k < |skills| ==> skills[k] != [] && Trimmed(skills[k]) && ',' !in skills[k])
      && IsSubsequence(skills, TrimAll(parts))
      && (forall k :: 0 <= k < |parts| && Trim(parts[k]) != [] ==> Trim(parts[k]) in skills)
  {
    var pieces := TrimAll(parts);
    FilterFacts(pieces, NonEmptyText);
    SkillsCommaFree(parts);
    forall k | 0 <= k < |parts| && Trim(parts[k]) != [] ensures Trim(parts[k]) in Filter(pieces, NonEmptyText) {
      assert pieces[k] == Trim(parts[k]);
    }
  }

  /** No kept piece contains a comma. */
  lemma SkillsCommaFree(parts: seq<string>)
    requires forall k :: 0 <= k < |parts| ==> ',' !in parts[k]
    ensures var skills := Filter(TrimAll(parts), NonEmptyText);
      forall k :: 0 <= k < |skills| ==> ',' !in skills[k]
  {
    var pieces := TrimAll(parts);
    var skills := Filter(pieces, NonEmptyText);
    FilterFacts(pieces, NonEmptyText);
    forall k | 0 <= k < |skills| ensures ',' !in skills[k] {
      var m :| 0 <= m < |pieces| && pieces[m] == skills[k];
      TrimInside(parts[m]);
    }
  }

  /** Trimming removes characters, so it adds no comma. */
  lemma TrimInside(s: string)
    requires ',' !in s
    ensures ',' !in Trim(s)
  {
    var pre, post := TrimSplit(s);
    assert s == pre + Trim(s) + post;
  }

  /** A comma-free field with some non-blank text gives exactly one skill, its trimmed text. */
  lemma OneSkill(raw: string)
    requires ',' !in raw && Trim(raw) != []
    ensures SplitSkills(raw) == [Trim(raw)]
  {
    assert TrimAll([raw]) == [Trim(raw)];
    assert Filter([Trim(raw)], NonEmptyText) == [Trim(raw)] + Filter([Trim(raw)][1..], NonEmptyText);
  }

  /**
   * The skill list is determined by those facts: any list of non-blank
   * trimmed pieces, in order, with one entry per non-blank piece, is it.
   */
  lemma SplitSkillsExact(raw: string, skills: seq<string>)
    requires IsSubsequence(skills, TrimAll(Split(raw, ',')))
    requires forall k :: 0 <= k < |skills| ==> skills[k] != []
    requires |skills| == CountWhere(TrimAll(Split(raw, ',')), NonEmptyText)
    ensures skills == SplitSkills(raw)
  {
    FilterUnique(skills, TrimAll(Split(raw, ',')), NonEmptyText);
  }

  /** Skills written out with commas are read back unchanged; no skills give an empty field and back. */
  lemma SkillsRoundTrip(skills: seq<string>)
    requires forall k :: 0 <= k < |skills| ==> skills[k] != [] && Trimmed(skills[k]) && ',' !in skills[k]
    ensures SplitSkills(Join(skills, ',')) == skills
  {
    if skills == [] {
      NoSkills();
    } else {
      SplitJoin(skills, ',');
      CleanSkillsKept(skills);
    }
  }

  /** Trimming and dropping blanks leave a list of clean skills as it is. */
  lemma CleanSkillsKept(skills: seq<string>)
    requires forall k :: 0 <= k < |skills| ==> skills[k] != [] && Trimmed(skills[k])
    ensures Filter(TrimAll(skills), NonEmptyText) == skills
  {
    assert TrimAll(skills) == skills;
    FilterAll(skills, NonEmptyText);
  }

  /** An empty field gives no skills, and no skills are written out as an empty field. */
  lemma NoSkills()
    ensures SplitSkills("") == [] && Join([], ',') == ""
  {
    assert Split("", ',') == [""];
    assert TrimAll([""]) == [""];
    assert Filter([""], NonEmptyText) == [];
  }

  /** Reading a skill list back after writing it out changes nothing. */
  lemma SplitSkillsIdempotent(raw: string)
    ensures SplitSkills(Join(SplitSkills(raw), ',')) == SplitSkills(raw)
  {
    SkillsRoundTrip(SplitSkills(raw));
  }

  /** The job form's fields, as typed. */
  datatype JobForm = JobForm(
    title: string, company: string, location: string, jobType: string, duration: string,
    rate: string, description: string, requiredSkills: string, cgpa: string, deadline: string)

  /** The row `handleSubmitJob` inserts into `posted_jobs`. */
  datatype JobPayload = JobPayload(
    title: string, company: string, location: string, jobType: string, duration: string,
    rate: string, description: string, requiredSkills: seq<string>, cgpa: Option<real>,
    deadline: Option<string>)

  /**
   * The payload of `handleSubmitJob`; `parseNumber` stands for `parseFloat`.
   * An empty cgpa or deadline field is sent as null.
   */
  function ToPayload(form: JobForm, parseNumber: string -> real): (p: JobPayload)
    ensures p.cgpa.None? <==> form.cgpa == ""
    ensures p.cgpa.Some? ==> p.cgpa.value == parseNumber(form.cgpa)
    ensures p.deadline.None? <==> form.deadline == ""
    ensures p.deadline.Some? ==> p.deadline.value == form.deadline
    ensures p.requiredSkills == SplitSkills(form.requiredSkills)
    ensures forall k :: 0 <= k < |p.requiredSkills| ==> p.requiredSkills[k] != [] && Trimmed(p.requiredSkills[k])
    ensures (p.title, p.company, p.location, p.jobType) == (form.title, form.company, form.location, form.jobType)
    ensures (p.duration, p.rate, p.description) == (form.duration, form.rate, form.description)
  {
    JobPayload(
      form.title, form.company, form.location, form.jobType, form.duration, form.rate, form.description,
      SplitSkills(form.requiredSkills),
      if form.cgpa != "" then Some(parseNumber(form.cgpa)) else None,
      if form.deadline != "" then Some(form.deadline) else None)
  }

  /** A consultant row with its department and status. */
  datatype Consultant = Consultant(
    id: string, username: string, email: string, role: string, department: string, status: string)

  /** The three filter inputs; an empty one does not filter. */
  datatype ConsultantFilters = ConsultantFilters(department: string, status: string, search: string)

  /** The predicate of the filter effect. */
  predicate Matches(c: Consultant, f: ConsultantFilters) {
    && (f.department == "" || c.department == f.department)
    && (f.status == "" || c.status == f.status)
    && (f.search == "" || Contains(Lower(c.username), Lower(f.search)) || Contains(Lower(c.email), Lower(f.search)))
  }

  /** The filter effect: the consultants that match, in list order. */
  function FilterConsultants(consultants: seq<Consultant>, f: ConsultantFilters): (shown: seq<Consultant>)
    ensures IsSubsequence(shown, consultants)
    ensures forall k :: 0 <= k < |shown| ==> shown[k] in consultants && Matches(shown[k], f)
    ensures forall k :: 0 <= k < |consultants| && Matches(consultants[k], f) ==> consultants[k] in shown
    ensures |shown| == CountWhere(consultants, c => Matches(c, f))
  {
    FilterFacts(consultants, c => Matches(c, f));
    Filter(consultants, c => Matches(c, f))
  }

  /** With every filter empty the whole list is shown. */
  lemma NoFiltersShowAll(consultants: seq<Consultant>)
    ensures FilterConsultants(consultants, ConsultantFilters("", "", "")) == consultants
  {
    FilterAll(consultants, c => Matches(c, ConsultantFilters("", "", "")));
  }

  /** The search is case-insensitive: a lower-cased search term shows the same list. */
  lemma SearchIgnoresCase(consultants: seq<Consultant>, f: ConsultantFilters)
    ensures FilterConsultants(consultants, f.(search := Lower(f.search))) == FilterConsultants(consultants, f)
  {
    LowerIdempotent(f.search);
    var g := f.(search := Lower(f.search));
    assert f.search == "" <==> g.search == "";
    FilterSame(consultants, c => Matches(c, g), c => Matches(c, f));
  }

  /** Applying the filters to their own output changes nothing. */
  lemma FilterConsultantsIdempotent(consultants: seq<Consultant>, f: ConsultantFilters)
    ensures FilterConsultants(FilterConsultants(consultants, f), f) == FilterConsultants(consultants, f)
  {
    FilterTwice(consultants, c => Matches(c, f));
  }

  /** `overall_attendance_percentage || 0`, per row. */
  function Filled(values: seq<Option<int>>): (xs: seq<int>)
    ensures |xs| == |values|
    ensures forall k :: 0 <= k < |values| ==> xs[k] == values[k].GetOr(0)
  {
    seq(|values|, k requires 0 <= k < |values| => values[k].GetOr(0))
  }

  /** The page's average attendance: 0 for no rows, else the total with nulls as 0 over the row count. */
  function StoredAverage(values: seq<Option<int>>): (avg: real)
    ensures values == [] ==> avg == 0.0
  {
    if |values| == 0 then 0.0 else Mean(Filled(values))
  }

  /**
   * `avgAttendance` after `fetchAttendance`: `None` (shown as "Loading...")
   * when the read fails, otherwise the stored average.
   */
  function AverageCard(fetched: Option<seq<Option<int>>>): (shown: Option<real>)
    ensures shown.None? <==> fetched.None?
    ensures fetched == Some([]) ==> shown == Some(0.0)
    ensures fetched.Some? ==> shown.value == StoredAverage(fetched.value)
  {
    if fetched.None? then None else Some(StoredAverage(fetched.value))
  }

  /** When every present value lies in [0, 100], so does the average. */
  lemma StoredAverageBounds(values: seq<Option<int>>)
    requires forall k :: 0 <= k < |values| && values[k].Some? ==> 0 <= values[k].value <= 100
    ensures 0.0 <= StoredAverage(values) <= 100.0
  {
    if |values| > 0 {
      MeanBounds(Filled(values), 0, 100);
    }
  }

  /** A missing value weighs exactly like a stored 0: it still counts in the denominator. */
  lemma MissingCountsAsZero(values: seq<Option<int>>, k: nat)
    requires k < |values| && values[k].None?
    ensures StoredAverage(values) == StoredAverage(values[k := Some(0)])
  {
    assert Filled(values) == Filled(values[k := Some(0)]);
  }
}
