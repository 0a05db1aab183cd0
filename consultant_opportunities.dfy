/**
 * The consultant opportunities page: skill normalisation, the job search,
 * the recommended-job join, the clean-up of the model's JSON reply, the
 * match-score colour and the applied-job list.
 */
module ConsultantOpportunities {
  import opened Wrappers
  import opened Text
  import opened Seqs

  // ---- normalizeSkill ----

  /** What `/[^a-z0-9]/g` leaves in place. */
  predicate IsSkillChar(c: char) {
    ('a' <= c <= 'z') || ('0' <= c <= '9')
  }

  /** `skill.trim().toLowerCase().replace(/[^a-z0-9]/g, '')`. */
  function NormalizeSkill(skill: string): (n: string)
    ensures forall i :: 0 <= i < |n| ==> IsSkillChar(n[i])
    ensures |n| <= |skill|
  {
    Filter(Lower(Trim(skill)), IsSkillChar)
  }

  /** A whitespace-only piece contributes nothing. */
  lemma {:induction false} SpacesDropOut(s: string)
    requires AllSpace(s)
    ensures Filter(Lower(s), IsSkillChar) == []
  {
    if s != [] {
      SpacesDropOut(s[1..]);
      assert Lower(s)[1..] == Lower(s[1..]);
    }
  }

  /** The character filter works piece by piece. */
  lemma KeepConcat(x: string, y: string)
    ensures Filter(Lower(x + y), IsSkillChar) == Filter(Lower(x), IsSkillChar) + Filter(Lower(y), IsSkillChar)
  {
    LowerConcat(x, y);
    FilterConcat(Lower(x), Lower(y), IsSkillChar);
  }

  /** Whitespace around a piece does not change what the filter keeps of it. */
  lemma KeepIgnoresSpaces(s: string, pre: string, t: string, post: string)
    requires s == (pre + t) + post
    requires AllSpace(pre) && AllSpace(post)
    ensures Filter(Lower(s), IsSkillChar) == Filter(Lower(t), IsSkillChar)
  {
    KeepConcat(pre + t, post);
    SpacesDropOut(post);
    KeepConcat(pre, t);
    SpacesDropOut(pre);
  }

  /** The `trim` is redundant: whitespace is removed by the character filter anyway. */
  lemma NormalizeIgnoresTrim(skill: string)
    ensures NormalizeSkill(skill) == Filter(Lower(skill), IsSkillChar)
  {
    var pre, post := TrimSplit(skill);
    KeepIgnoresSpaces(skill, pre, Trim(skill), post);
  }

  /** Normalising a normalised skill changes nothing. */
  lemma NormalizeIdempotent(skill: string)
    ensures NormalizeSkill(NormalizeSkill(skill)) == NormalizeSkill(skill)
  {
    var n := NormalizeSkill(skill);
    NormalizeIgnoresTrim(n);
    assert Lower(n) == n;
    FilterAll(n, IsSkillChar);
  }

  // ---- filteredJobs ----

  /** A row of `posted_jobs`, as far as this page reads it. */
  datatype Job = Job(
    id: string, title: string, company: string, location: string, duration: string, requiredSkills: seq<string>)

  /** The three search boxes. */
  datatype JobSearch = JobSearch(title: string, duration: string, location: string)

  /** Title, duration and location each contain their search text, ignoring case. */
  predicate JobMatches(j: Job, q: JobSearch) {
    && Contains(Lower(j.title), Lower(q.title))
    && Contains(Lower(j.duration), Lower(q.duration))
    && Contains(Lower(j.location), Lower(q.location))
  }

  /** `filteredJobs`: the matching jobs, in list order. */
  function FilteredJobs(jobs: seq<Job>, q: JobSearch): (shown: seq<Job>)
    ensures IsSubsequence(shown, jobs)
    ensures forall k :: 0 <= k < |shown| ==> shown[k] in jobs && JobMatches(shown[k], q)
    ensures forall k :: 0 <= k < |jobs| && JobMatches(jobs[k], q) ==> jobs[k] in shown
    ensures |shown| == CountWhere(jobs, j => JobMatches(j, q))
  {
    FilterFacts(jobs, j => JobMatches(j, q));
    Filter(jobs, j => JobMatches(j, q))
  }

  /** Every string contains the empty string. */
  lemma ContainsEmpty(h: string)
    ensures Contains(h, [])
  {
  }

  /** With all three boxes empty every job is shown. */
  lemma EmptySearchShowsAll(jobs: seq<Job>)
    ensures FilteredJobs(jobs, JobSearch("", "", "")) == jobs
  {
    var q := JobSearch("", "", "");
    forall k | 0 <= k < |jobs| ensures JobMatches(jobs[k], q) {
      ContainsEmpty(Lower(jobs[k].title));
      ContainsEmpty(Lower(jobs[k].duration));
      ContainsEmpty(Lower(jobs[k].location));
    }
    FilterAll(jobs, j => JobMatches(j, q));
  }

  // ---- recommended jobs ----

  /** An entry of the model's `recommended_jobs`. */
  datatype RecJob = RecJob(title: string, company: string)

  predicate SameListing(j: Job, r: RecJob) {
    j.title == r.title && j.company == r.company
  }

  /** `recommendedJobs.some(match => match.title === job.title && match.company === job.company)`. */
  predicate IsRecommended(recs: seq<RecJob>, j: Job) {
    exists k :: 0 <= k < |recs| && SameListing(j, recs[k])
  }

  /** `finalRecommendedJobs`: the posted jobs some recommendation names, in job order. */
  function FinalRecommendedJobs(jobs: seq<Job>, recs: seq<RecJob>): (r: seq<Job>)
    ensures IsSubsequence(r, jobs)
    ensures forall k :: 0 <= k < |r| ==> r[k] in jobs && IsRecommended(recs, r[k])
    ensures forall k :: 0 <= k < |jobs| && IsRecommended(recs, jobs[k]) ==> jobs[k] in r
    ensures |r| == CountWhere(jobs, j => IsRecommended(recs, j))
  {
    FilterFacts(jobs, j => IsRecommended(recs, j));
    Filter(jobs, j => IsRecommended(recs, j))
  }

  /** The position of the first job with the entry's title and company, or `|jobs|`. */
  function FirstListing(jobs: seq<Job>, r: RecJob): (i: nat)
    ensures i <= |jobs|
    ensures forall j :: 0 <= j < i ==> !SameListing(jobs[j], r)
    ensures i < |jobs| ==> SameListing(jobs[i], r)
  {
    if jobs == [] || SameListing(jobs[0], r) then 0 else 1 + FirstListing(jobs[1..], r)
  }

  /** `jobs.find(...)` for one recommended entry: the first job with its title and company. */
  function FindJob(jobs: seq<Job>, r: RecJob): (found: Option<Job>)
    ensures found.None? <==> forall j :: 0 <= j < |jobs| ==> !SameListing(jobs[j], r)
    ensures found.Some? ==> found.value in jobs && SameListing(found.value, r)
    ensures found.Some? ==>
      exists i :: 0 <= i < |jobs| && jobs[i] == found.value && SameListing(jobs[i], r)
        && forall j :: 0 <= j < i ==> !SameListing(jobs[j], r)
  {
    var i := FirstListing(jobs, r);
    if i < |jobs| then Some(jobs[i]) else None
  }

  /** How many of the entries find a posted job. */
  function MatchedCount(jobs: seq<Job>, recs: seq<RecJob>): (n: nat)
    ensures n <= |recs|
  {
    if recs == [] then 0
    else MatchedCount(jobs, recs[..|recs| - 1]) + (if FindJob(jobs, recs[|recs| - 1]).Some? then 1 else 0)
  }

  /**
   * The rendered recommendation list: each entry mapped to its job, unmatched
   * entries dropped, one card per matched entry (`RecommendedPosition` says
   * where each one goes).
   */
  function RecommendedList(jobs: seq<Job>, recs: seq<RecJob>): (shown: seq<Job>)
    ensures |shown| == MatchedCount(jobs, recs) <= |recs|
    ensures forall k :: 0 <= k < |shown| ==> shown[k] in jobs && IsRecommended(recs, shown[k])
    ensures forall k :: 0 <= k < |recs| && FindJob(jobs, recs[k]).Some? ==> FindJob(jobs, recs[k]).value in shown
  {
    if recs == [] then []
    else
      var rest := RecommendedList(jobs, recs[..|recs| - 1]);
      var last := recs[|recs| - 1];
      forall k | 0 <= k < |rest| ensures IsRecommended(recs, rest[k]) {
        var m :| 0 <= m < |recs| - 1 && SameListing(rest[k], recs[..|recs| - 1][m]);
        assert SameListing(rest[k], recs[m]);
      }
      match FindJob(jobs, last)
      case None => rest
      case Some(j) => rest + [j]
  }

  /**
   * Entry order is kept: the card of a matched entry `k` is the first job with
   * its title and company, and it comes right after the cards of the matched
   * entries before `k`.
   */
  lemma {:induction false} RecommendedPosition(jobs: seq<Job>, recs: seq<RecJob>, k: nat)
    requires k < |recs| && FindJob(jobs, recs[k]).Some?
    ensures var shown, at := RecommendedList(jobs, recs), MatchedCount(jobs, recs[..k]);
      at < |shown| && shown[at] == FindJob(jobs, recs[k]).value
    decreases |recs|
  {
    var init := recs[..|recs| - 1];
    if k < |recs| - 1 {
      assert init[..k] == recs[..k] && init[k] == recs[k];
      RecommendedPosition(jobs, init, k);
    } else {
      assert recs[..k] == init;
    }
  }

  /** A matched entry's card comes before the card of any later matched entry. */
  lemma {:induction false} MatchedCountGrows(jobs: seq<Job>, recs: seq<RecJob>, i: nat, k: nat)
    requires i < k <= |recs| && FindJob(jobs, recs[i]).Some?
    ensures MatchedCount(jobs, recs[..i]) < MatchedCount(jobs, recs[..k])
    decreases k
  {
    var p, q := recs[..k], recs[..k - 1];
    assert p[..|p| - 1] == q;
    assert MatchedCount(jobs, q) <= MatchedCount(jobs, p);
    if i < k - 1 {
      MatchedCountGrows(jobs, recs, i, k - 1);
    } else {
      assert p[|p| - 1] == recs[i];
    }
  }

  /** A recommendation named twice is shown twice. */
  lemma RepeatedEntryShownTwice(jobs: seq<Job>, r: RecJob)
    requires FindJob(jobs, r).Some?
    ensures RecommendedList(jobs, [r, r]) == [FindJob(jobs, r).value, FindJob(jobs, r).value]
  {
    assert [r, r][..1] == [r];
    assert [r][..0] == [];
  }

  /** Every rendered recommendation is in `finalRecommendedJobs`. */
  lemma RenderedAreFinal(jobs: seq<Job>, recs: seq<RecJob>)
    ensures var shown, final := RecommendedList(jobs, recs), FinalRecommendedJobs(jobs, recs);
      forall k :: 0 <= k < |shown| ==> shown[k] in final
  {
    var shown := RecommendedList(jobs, recs);
    FilterFacts(jobs, j => IsRecommended(recs, j));
    forall k | 0 <= k < |shown| ensures shown[k] in FinalRecommendedJobs(jobs, recs) {
      var i :| 0 <= i < |jobs| && jobs[i] == shown[k];
    }
  }

  /** Some rendered job carries the title and company of `j`. */
  predicate ShownListing(shown: seq<Job>, j: Job) {
    exists m :: 0 <= m < |shown| && shown[m].title == j.title && shown[m].company == j.company
  }

  /** A posted job some entry names has a rendered job with its title and company. */
  lemma RecommendedShown(jobs: seq<Job>, recs: seq<RecJob>, j: Job)
    requires j in jobs && IsRecommended(recs, j)
    ensures ShownListing(RecommendedList(jobs, recs), j)
  {
    var shown := RecommendedList(jobs, recs);
    var r :| 0 <= r < |recs| && SameListing(j, recs[r]);
    var found := FindJob(jobs, recs[r]);
    assert found.Some?;
    var m :| 0 <= m < |shown| && shown[m] == found.value;
    assert SameListing(shown[m], recs[r]);
  }

  /** The `k`th job of `finalRecommendedJobs` has a rendered job with its title and company. */
  lemma FinalEntryShown(jobs: seq<Job>, recs: seq<RecJob>, k: nat)
    requires k < |FinalRecommendedJobs(jobs, recs)|
    ensures ShownListing(RecommendedList(jobs, recs), FinalRecommendedJobs(jobs, recs)[k])
  {
    var j := FinalRecommendedJobs(jobs, recs)[k];
    assert j in jobs;
    assert IsRecommended(recs, j);
    RecommendedShown(jobs, recs, j);
  }

  /** Every job of `finalRecommendedJobs` has a rendered job with its title and company. */
  lemma FinalAreRendered(jobs: seq<Job>, recs: seq<RecJob>)
    ensures forall k :: 0 <= k < |FinalRecommendedJobs(jobs, recs)| ==>
      ShownListing(RecommendedList(jobs, recs), FinalRecommendedJobs(jobs, recs)[k])
  {
    forall k | 0 <= k < |FinalRecommendedJobs(jobs, recs)|
      ensures ShownListing(RecommendedList(jobs, recs), FinalRecommendedJobs(jobs, recs)[k])
    {
      FinalEntryShown(jobs, recs, k);
    }
  }

  // ---- cleaning the model's reply ----

  const JsonFence := "```json"
  const Fence := "```"

  /** The first alternative, `^```json\s*`: an opening "```json" and the whitespace after it. */
  function DropOpening(s: string): (r: string)
    ensures |r| <= |s|
    ensures !(JsonFence <= s) ==> r == s
  {
    if JsonFence <= s then TrimStart(s[|JsonFence|..]) else s
  }

  /** The second alternative, `\s*```$`: a closing "```" and the whitespace before it. */
  function DropClosing(s: string): (r: string)
    ensures |r| <= |s|
    ensures !EndsWith(s, Fence) ==> r == s
  {
    if EndsWith(s, Fence) then TrimEnd(s[..|s| - |Fence|]) else s
  }

  /**
   * `.replace(/^```json\s*|\s*```$/g, '')`: the global replace removes the
   * opening match and then the closing match in what follows it.
   */
  function StripFences(s: string): (r: string)
    ensures |r| <= |s|
    ensures !(JsonFence <= s) && !EndsWith(s, Fence) ==> r == s
  {
    DropClosing(DropOpening(s))
  }

  /**
   * `text().trim().replace(...)`: never longer than the reply, and a reply
   * without fences comes out trimmed and otherwise unchanged.
   */
  function CleanReply(raw: string): (r: string)
    ensures |r| <= |raw|
    ensures !(JsonFence <= Trim(raw)) && !EndsWith(Trim(raw), Fence) ==> r == Trim(raw)
  {
    StripFences(Trim(raw))
  }

  lemma OpeningDropped(x: string)
    ensures DropOpening(JsonFence + x) == TrimStart(x)
  {
    assert JsonFence <= JsonFence + x;
    assert (JsonFence + x)[|JsonFence|..] == x;
  }

  lemma ClosingDropped(x: string)
    ensures DropClosing(x + Fence) == TrimEnd(x)
  {
    assert EndsWith(x + Fence, Fence);
    assert (x + Fence)[..|x + Fence| - |Fence|] == x;
  }

  /** A fenced block starts and ends with a backtick, so `trim` leaves it alone. */
  lemma FenceBlockTrimmed(rest: string)
    ensures Trim(JsonFence + (['\n'] + (rest + Fence))) == JsonFence + (['\n'] + (rest + Fence))
  {
    var s := JsonFence + (['\n'] + (rest + Fence));
    assert s[0] == '`' && s[|s| - 1] == '`';
  }

  /** The opening alternative removes the fence and the line break after it. */
  lemma OpeningThenBody(rest: string)
    requires rest == [] || !IsSpace(rest[0])
    ensures DropOpening(JsonFence + (['\n'] + (rest + Fence))) == rest + Fence
  {
    OpeningDropped(['\n'] + (rest + Fence));
    TrimStartSpace('\n', rest + Fence);
    TrimStartNoSpace(rest + Fence);
  }

  /** The same for a block whose body is non-empty and trimmed. */
  lemma OpeningBeforeBody(body: string)
    requires Trimmed(body) && body != []
    ensures DropOpening(JsonFence + (['\n'] + ((body + ['\n']) + Fence))) == (body + ['\n']) + Fence
  {
    assert (body + ['\n'])[0] == body[0];
    OpeningThenBody(body + ['\n']);
  }

  /** The shape of a fenced block, written with the parts grouped for the two alternatives. */
  lemma BlockShape(body: string)
    ensures JsonFence + "\n" + body + "\n" + Fence == JsonFence + (['\n'] + ((body + ['\n']) + Fence))
  {
  }

  /** The reply is cleaned in three steps: trim, the opening alternative, the closing one. */
  lemma CleanSteps(s: string, afterOpening: string, r: string)
    requires Trim(s) == s && DropOpening(s) == afterOpening && DropClosing(afterOpening) == r
    ensures CleanReply(s) == r
  {
  }

  /** What is left of a non-empty body and its line break once the closing fence goes. */
  lemma BodyAfterClosing(body: string)
    requires Trimmed(body) && body != []
    ensures DropClosing((body + ['\n']) + Fence) == body
  {
    ClosingDropped(body + ['\n']);
    TrimEndSpace(body, '\n');
    TrimEndNoSpace(body);
  }

  /** A non-empty body followed by its line break and the closing fence comes out exactly. */
  lemma FencedBody(body: string)
    requires Trimmed(body) && body != []
    ensures CleanReply(JsonFence + (['\n'] + ((body + ['\n']) + Fence))) == body
  {
    BodyAfterClosing(body);
    OpeningBeforeBody(body);
    FenceBlockTrimmed(body + ['\n']);
    CleanSteps(JsonFence + (['\n'] + ((body + ['\n']) + Fence)), (body + ['\n']) + Fence, body);
  }

  /** An empty block: only the closing fence is left after the opening one goes. */
  lemma EmptyAfterOpening()
    ensures DropOpening(JsonFence + (['\n'] + (['\n'] + Fence))) == Fence
    ensures DropClosing(Fence) == []
  {
    OpeningThenBody([]);
    assert [] + Fence == Fence;
    assert ['\n'] + Fence == ['\n'] + ([] + Fence);
    ClosingDropped([]);
  }

  /** An empty fenced block comes out empty. */
  lemma FencedEmpty()
    ensures CleanReply(JsonFence + (['\n'] + (['\n'] + Fence))) == []
  {
    EmptyAfterOpening();
    FenceBlockTrimmed(['\n']);
    CleanSteps(JsonFence + (['\n'] + (['\n'] + Fence)), Fence, []);
  }

  /** A JSON body wrapped in a fenced block on its own lines comes out exactly. */
  lemma FencedReply(body: string)
    requires Trimmed(body)
    ensures CleanReply(JsonFence + "\n" + body + "\n" + Fence) == body
  {
    BlockShape(body);
    if body == [] {
      FencedEmpty();
      assert (body + ['\n']) + Fence == ['\n'] + Fence;
    } else {
      FencedBody(body);
    }
  }

  // ---- match-score colour ----

  datatype MatchColor = Muted | Warning | Primary | Success {
    /** The colours from weakest to strongest. */
    function Rank(): nat {
      match this
      case Muted => 0
      case Warning => 1
      case Primary => 2
      case Success => 3
    }
  }

  /** `getMatchScoreColor`. */
  function ScoreColor(score: real): (c: MatchColor)
    ensures c == Success <==> score >= 90.0
    ensures c == Primary <==> 80.0 <= score < 90.0
    ensures c == Warning <==> 70.0 <= score < 80.0
    ensures c == Muted <==> score < 70.0
  {
    if score >= 90.0 then Success
    else if score >= 80.0 then Primary
    else if score >= 70.0 then Warning
    else Muted
  }

  /** A higher score never gets a weaker colour. */
  lemma ScoreColorMonotone(a: real, b: real)
    requires a <= b
    ensures ScoreColor(a).Rank() <= ScoreColor(b).Rank()
  {
  }

  // ---- applying ----

  /** The parsed resume the page keeps. */
  datatype Resume = Resume(name: string, email: string, skills: seq<string>)

  /** A row of `applied_jobs`. */
  datatype Application = Application(
    name: string, email: string, skills: seq<string>, appliedJob: string, appliedCompany: string)

  /** The page state that applying reads and changes. */
  class OpportunitiesPage {
    var resume: Option<Resume>
    var appliedJobIds: seq<string>

    constructor (resume0: Option<Resume>)
      ensures resume == resume0 && appliedJobIds == []
    {
      resume := resume0;
      appliedJobIds := [];
    }

    /** `appliedJobIds.includes(title)`: the Apply button is disabled. */
    predicate IsApplied(title: string)
      reads this
    {
      title in appliedJobIds
    }

    /**
     * `handleApply`: without a resume nothing happens; otherwise one
     * application row is sent, and when the insert succeeds the job's title is
     * appended to the applied list.
     */
    method Apply(job: Job, insertSucceeds: bool) returns (sent: Option<Application>)
      modifies this
      ensures resume == old(resume)
      ensures old(resume).None? ==> sent.None? && appliedJobIds == old(appliedJobIds)
      ensures old(resume).Some? ==>
        sent == Some(Application(resume.value.name, resume.value.email, resume.value.skills, job.title, job.company))
      ensures old(resume).Some? && insertSucceeds ==> appliedJobIds == old(appliedJobIds) + [job.title]
      ensures !insertSucceeds ==> appliedJobIds == old(appliedJobIds)
      ensures old(appliedJobIds) <= appliedJobIds
      ensures old(resume).Some? && insertSucceeds ==> IsApplied(job.title)
      ensures forall t :: old(IsApplied(t)) ==> IsApplied(t)
    {
      if resume.None? {
        return None;
      }
      var r := resume.value;
      sent := Some(Application(r.name, r.email, r.skills, job.title, job.company));
      if insertSucceeds {
        appliedJobIds := appliedJobIds + [job.title];
      }
    }

    /**
     * `fetchAppliedJobs`: with a resume e-mail and a successful query, the list
     * becomes the titles of that e-mail's applications, in table order;
     * `table` is None when the query fails.
     */
    method LoadAppliedJobs(table: Option<seq<Application>>)
      modifies this
      ensures resume == old(resume)
      ensures old(resume).Some? && old(resume).value.email != "" && table.Some? ==>
        && |appliedJobIds| <= |table.value|
        && forall t :: t in appliedJobIds <==>
             exists k :: 0 <= k < |table.value| && table.value[k].email == resume.value.email
               && table.value[k].appliedJob == t
      ensures old(resume).None? || old(resume).value.email == "" || table.None? ==>
        appliedJobIds == old(appliedJobIds)
    {
      if resume.Some? && resume.value.email != "" && table.Some? {
        appliedJobIds := TitlesFor(table.value, resume.value.email);
      }
    }
  }

  /** `.eq('email', email)` then `.map(entry => entry.applied_job)`. */
  function TitlesFor(rows: seq<Application>, email: string): (titles: seq<string>)
    ensures |titles| <= |rows|
    ensures forall t :: t in titles <==> exists k :: 0 <= k < |rows| && rows[k].email == email && rows[k].appliedJob == t
  {
    if rows == [] then []
    else
      var init, last := rows[..|rows| - 1], rows[|rows| - 1];
      var rest := TitlesFor(init, email);
      assert forall k :: 0 <= k < |init| ==> init[k] == rows[k];
      if last.email == email then rest + [last.appliedJob] else rest
  }
}
