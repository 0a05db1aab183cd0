# Tech-Strike page logic, modelled in Dafny

Tech-Strike is a React front end for a consultant-management portal. The pages
read and write a hosted database and call an LLM. Inside their handlers sits a
small amount of deterministic data logic. This project models that logic and
proves what it does:

- **Attendance upload** (`AdminReports.tsx`, `handleSubmit`). The user is looked
  up by name. A running "overall attendance percentage" starts at 100 and is
  folded over the user's earlier statuses and then the new one: Absent −20,
  Late −10, Present +5, anything else 0. It is clamped to [0, 100] after every
  step. Exactly one row is then appended to the table. Modelled as the class
  `AdminReports.AttendanceTable`, whose `rows` field is the table, and the loop
  method `ComputeOverall`.
- **One record per user** (`AdminReports.tsx`, `AdminDashboard.tsx`). There are two
  `Map` reductions. "First seen" uses `has`/`set` over rows ordered newest first.
  "Latest by date" uses `get`, compares dates, then `set`. A JavaScript `Map`
  lists keys in first-insertion order, so both are modelled as sequences in
  order of first appearance. Both have a loop method (`LatestPercentages`,
  `LatestRecords`) proved equal to a recursive specification function.
- **Leaderboard cards** (`fetchTopUsers`). The latest records are copied into an
  array and sorted in place, ascending by percentage. This is modelled as an
  insertion sort on an `array`, proved equal to a stable sort function. Then
  top absent is the first element, top present the last, and top late the first
  `Late` record.
- **Dashboard figures**: the ≥ 90 % count, the mean of the latest percentages,
  resume compliance, and the consultants page's average of the stored column.
- **Monthly summary** (`ConsultantAttendance.tsx`). A counting loop over
  lower-cased statuses, then `Math.round(present / total * 100)`. This is
  modelled exactly as rounding half up of a rational.
- **List filters and string clean-up**:
  - comma-separated skills;
  - the consultant filter and the job search;
  - `normalizeSkill`, which the page defines but never calls;
  - the join of recommended jobs with posted jobs;
  - the removal of a JSON code fence from the LLM reply;
  - the match-score colour `getMatchScoreColor`, which the page also defines but never calls;
  - the applied-jobs list, modelled as the class `ConsultantOpportunities.OpportunitiesPage`.

Modules: `Wrappers` (Option), `Text` (JavaScript `trim`, `toLowerCase`,
`includes`, `split`, `join`), `Seqs` (filter, subsequence), `Metrics` (sums,
means, rounding), `Attendance` (the row type and both reductions), and one
module per page: `AdminReports`, `AdminDashboard`, `AdminConsultants`,
`ConsultantAttendance`, `ConsultantOpportunities`.

Dates are integers; ISO `YYYY-MM-DD` strings order the same way. Percentages are
integers and averages are reals. Database reads become input sequences. A read
that can fail is an `Option` (or, for the monthly summary, the `MonthRead`
datatype). `None` selects the page's error path: the figure keeps its previous
value, the cards stay null, or the list is emptied, as the page does.

## Model

| member | source | states |
|---|---|---|
| AdminReports.Adjust | src/pages/admin/AdminReports.tsx:155-166 | −20 exactly for `Absent`, −10 exactly for `Late`, +5 exactly for `Present`, 0 exactly for every other string |
| AdminReports.Clamp | src/pages/admin/AdminReports.tsx:172 | the result lies in [0, 100]; it is the input when that is in range, 0 below, 100 above |
| AdminReports.Score | src/pages/admin/AdminReports.tsx:152-178 | the fold from 100, clamped after each status, always lies in [0, 100] |
| AdminReports.ComputeOverall | src/pages/admin/AdminReports.tsx:152-178 | the loop, including its `length > 0` guard, yields the clamped fold over the existing statuses followed by one step for the new status, in [0, 100] |
| AdminReports.ScoreLowerBound | src/pages/admin/AdminReports.tsx:155-178 | the score is at least 100 − 20·(number of Absent) − 10·(number of Late): presence never costs |
| AdminReports.FullScoreWithoutAbsence | src/pages/admin/AdminReports.tsx:152-178 | a history with no Absent and no Late scores exactly 100 |
| AdminReports.UnknownStatusNeutral | src/pages/admin/AdminReports.tsx:163-164 | appending a status other than the three known ones leaves the score unchanged |
| AdminReports.ScoreMonotone | src/pages/admin/AdminReports.tsx:170-178 | a history that scores at least as high as another stays at least as high after the same further statuses |
| AdminReports.ScoreSnoc | src/pages/admin/AdminReports.tsx:177-178 | one more status is one more clamped step of the fold |
| AdminReports.FirstRecordScores | src/pages/admin/AdminReports.tsx:152-178 | a first-ever record stores 100 for Present (105 clamped), 90 for Late, 80 for Absent |
| AdminReports.PresentStep | src/pages/admin/AdminReports.tsx:161-162 | a Present raises the score by 5, or to 100 from 95 upwards |
| AdminReports.FourPresents | src/pages/admin/AdminReports.tsx:170-178 | from a score of at least 80, four Presents reach 100 |
| AdminReports.OrderMatters | src/pages/admin/AdminReports.tsx:170-178 | [Present×4, Absent] stores 80 while its permutation [Absent, Present×4] stores 100: the fold depends on order |
| AdminReports.FirstNamed | src/pages/admin/AdminReports.tsx:136 | the index of the first user with the name, or the length when no user has it |
| AdminReports.FindUser | src/pages/admin/AdminReports.tsx:136 | None exactly when no user has the name; otherwise the first user with it |
| AdminReports.NullIfEmpty | src/pages/admin/AdminReports.tsx:187-188 | an empty time field is stored as null, any other value as itself |
| AdminReports.StatusesOf | src/pages/admin/AdminReports.tsx:144-147 | one status per row of the user: exactly as many statuses as the user has rows, so no more than rows |
| AdminReports.StatusesOfRows | src/pages/admin/AdminReports.tsx:144-147 | a status is read exactly when some row of that user carries it |
| AdminReports.StatusesOfOther | src/pages/admin/AdminReports.tsx:147 | another user's row does not change what is read for this user |
| AdminReports.NewRecord | src/pages/admin/AdminReports.tsx:181-191 | the inserted row carries the user id, date, status, hours and computed percentage; each time field is null exactly when its form field is empty, else the field's text |
| AdminReports.AttendanceTable.constructor | src/pages/admin/AdminReports.tsx:144-147 | the table starts with the given rows |
| AdminReports.AttendanceTable.Submit | src/pages/admin/AdminReports.tsx:136-193 | an unknown name returns before any read or write; a failed fetch or insert appends nothing; otherwise exactly one row is appended, carrying the score of the statuses as the unordered select returned them (any permutation of the user's stored statuses) plus the new one; percentages in [0, 100] stay in [0, 100] |
| AdminReports.InsertByOverallKeeps | src/pages/admin/AdminReports.tsx:248-250 | inserting one record adds exactly that record to the multiset |
| AdminReports.InsertByOverallSorted | src/pages/admin/AdminReports.tsx:248-250 | inserting into a list sorted by percentage keeps it sorted |
| AdminReports.SortByOverallSorted | src/pages/admin/AdminReports.tsx:248-250 | the sort result is ascending by percentage |
| AdminReports.SortByOverallKeeps | src/pages/admin/AdminReports.tsx:248-250 | the sort result is a permutation of its input |
| AdminReports.InsertByOverallStable | src/pages/admin/AdminReports.tsx:248-250 | an inserted record comes after every record with its percentage, and the others with that percentage keep their order |
| AdminReports.SortByOverallStable | src/pages/admin/AdminReports.tsx:248-250 | for every percentage, the records with that percentage leave the sort in their input order |
| AdminReports.InsertAt | src/pages/admin/AdminReports.tsx:248-250 | a record lands after the last element whose percentage is not above its own, so equal percentages keep their order |
| AdminReports.InsertInPlace | src/pages/admin/AdminReports.tsx:248-250 | moving `a[i]` down into the sorted prefix leaves the prefix equal to the stable insertion and the rest of the array untouched |
| AdminReports.SortInPlace | src/pages/admin/AdminReports.tsx:248-250 | the in-place sort leaves the array equal to the stable sort of its old contents |
| AdminReports.SortedLatestFacts | src/pages/admin/AdminReports.tsx:237-250 | the sorted array holds exactly the latest records and is ascending; it is empty exactly when there are no rows |
| AdminReports.SortedLatestEmpty | src/pages/admin/AdminReports.tsx:237-250 | there is a latest record exactly when there is a row |
| AdminReports.TopAbsentRecord | src/pages/admin/AdminReports.tsx:253-254 | top absent is null exactly when there are no rows; otherwise it is a latest record with the lowest percentage |
| AdminReports.TopPresentRecord | src/pages/admin/AdminReports.tsx:256-257 | top present is null exactly when there are no rows; otherwise it is a latest record with the highest percentage |
| AdminReports.FirstLateIsLowest | src/pages/admin/AdminReports.tsx:259-261 | in a sorted list, the first `Late` record is a `Late` record with the lowest percentage among them |
| AdminReports.NoLateLeft | src/pages/admin/AdminReports.tsx:260-261 | the `Late` filter is empty exactly when no record is `Late` |
| AdminReports.TopLateRecord | src/pages/admin/AdminReports.tsx:259-261 | top late is null exactly when no latest record is `Late`; otherwise it is a `Late` latest record with the lowest percentage among those |
| AdminReports.SortedEnds | src/pages/admin/AdminReports.tsx:253-257 | in a sorted list the first element has the lowest percentage and the last the highest |
| AdminReports.ToTopUser | src/pages/admin/AdminReports.tsx:264-271 | no card exactly when there is no record or its joined user name is missing; otherwise the card carries the record's user id, that name and the record's percentage |
| AdminReports.FilterSorted | src/pages/admin/AdminReports.tsx:260 | filtering a sorted list keeps it sorted |
| AdminReports.FetchTopUsers | src/pages/admin/AdminReports.tsx:212-283 | when the read fails or returns no data all three cards stay null; otherwise they are the top present, absent and late records mapped to users, and a missing record or a missing joined user name gives no card |
| AdminReports.HighUsersSnoc | src/pages/admin/AdminReports.tsx:68-73 | one more row adds its user to the high set exactly when the user is new and the percentage is at least 90 |
| AdminReports.HighUsersWithin | src/pages/admin/AdminReports.tsx:68-74 | every high user owns a row |
| AdminReports.HighCountIsHighUsers | src/pages/admin/AdminReports.tsx:68-74 | counting the map values ≥ 90 counts the users whose first row is ≥ 90 |
| AdminReports.HighAttendanceCount | src/pages/admin/AdminReports.tsx:35-90 | after a failed read the figure keeps its previous value; otherwise it is the number of users whose first row (the latest, in date-descending order) is ≥ 90, and never exceeds the number of distinct users |
| Attendance.Percentages | src/pages/admin/AdminReports.tsx:74 | one percentage per entry, position by position |
| Attendance.IndexOfUser | src/pages/admin/AdminReports.tsx:239 | `map.get`: the first position of the user, or −1 exactly when the user has no entry |
| Attendance.FirstSeenUsers | src/pages/admin/AdminDashboard.tsx:72-77 | the first-seen map holds each user of the rows exactly once, so its size is the number of distinct users |
| Attendance.FirstSeenFirst | src/pages/admin/AdminDashboard.tsx:72-77 | each first-seen entry is the first row of its user |
| Attendance.LatestByUserUsers | src/pages/admin/AdminReports.tsx:237-243 | the latest-by-date map holds the same users as first seen, in the same order, each once |
| Attendance.LatestByUserLatest | src/pages/admin/AdminReports.tsx:237-243 | each kept record has a date at least that of every row of its user, and on equal dates it is the first one met |
| Attendance.FirstSeenIsLatest | src/pages/admin/AdminDashboard.tsx:64-77 | over rows ordered newest first, the first row seen of each user is its latest row |
| Attendance.LatestPercentages | src/pages/admin/AdminDashboard.tsx:72-77 | the `has`/`set` loop yields the first-seen percentages in key order |
| Attendance.LatestRecords | src/pages/admin/AdminReports.tsx:237-245 | the `get`/compare/`set` loop yields the latest-by-date reduction in key order |
| AdminDashboard.AverageAttendance | src/pages/admin/AdminDashboard.tsx:40-94 | after a failed read the figure keeps its previous value; otherwise it is the average of the first-seen percentages, and 0 with no rows |
| AdminDashboard.LatestAverageEmpty | src/pages/admin/AdminDashboard.tsx:79-82 | the map size is the number of distinct users, and the map is empty exactly when there are no rows |
| AdminDashboard.LatestAverageBounds | src/pages/admin/AdminDashboard.tsx:79-82 | when every stored percentage lies in [lo, hi], so does the average |
| AdminDashboard.LatestAverageOfLatest | src/pages/admin/AdminDashboard.tsx:64-82 | over rows ordered newest first, the average is the mean of each user's latest percentage |
| AdminDashboard.ResumeCompliance | src/pages/admin/AdminDashboard.tsx:119 | 0 with no consultants; otherwise the share rounded half up; at most 100 when resumes ≤ consultants, and 100 when they are equal |
| Metrics.SumBounds | src/pages/admin/AdminDashboard.tsx:81 | a sum of values in [lo, hi] lies between n·lo and n·hi |
| Metrics.MeanBounds | src/pages/admin/AdminDashboard.tsx:81 | a mean of values in [lo, hi] lies in [lo, hi] |
| Metrics.RoundPercent | src/pages/consultant/ConsultantAttendance.tsx:282 | `Math.round(100·n/d)` on exact rationals: the nearest integer, halves rounded up; at most 100 when n ≤ d; 100 when n = d |
| Metrics.RoundPercentFull | src/pages/consultant/ConsultantAttendance.tsx:282 | the rounded share is 100 exactly when the share is at least 99.5 % |
| ConsultantAttendance.RecentAttendance | src/pages/consultant/ConsultantAttendance.tsx:75-83 | same length and order; date, times and hours copied; the status lower-cased |
| ConsultantAttendance.RecentList | src/pages/consultant/ConsultantAttendance.tsx:28-93 | the list is empty exactly when a read failed (or there is no wallet) or no rows came back; otherwise each entry has its row's date and lower-cased status |
| ConsultantAttendance.RecentAttendanceIdempotent | src/pages/consultant/ConsultantAttendance.tsx:75-83 | mapping the view again changes nothing |
| ConsultantAttendance.BadgeFor | src/pages/consultant/ConsultantAttendance.tsx:176-187 | each of `present`, `absent`, `late` gets its badge exactly; every other string gets Unknown |
| ConsultantAttendance.BadgeIgnoresCase | src/pages/consultant/ConsultantAttendance.tsx:78 | a stored `Present` shows the Present badge after the lower-casing |
| ConsultantAttendance.TallySnoc | src/pages/consultant/ConsultantAttendance.tsx:265-276 | one more row raises at most one counter, the one its lower-cased status names |
| ConsultantAttendance.TallyAtMostRows | src/pages/consultant/ConsultantAttendance.tsx:261-281 | present + absent + late never exceeds the number of rows |
| ConsultantAttendance.MonthlyPercent | src/pages/consultant/ConsultantAttendance.tsx:281-282 | 0 when nothing was counted; otherwise present/total rounded half up; always ≤ 100 |
| ConsultantAttendance.PerfectMonth | src/pages/consultant/ConsultantAttendance.tsx:282 | a month with days and no absence or late arrival shows 100 |
| ConsultantAttendance.HundredMeansPerfect | src/pages/consultant/ConsultantAttendance.tsx:282 | below 200 counted days, 100 is shown only without absence or late arrival |
| ConsultantAttendance.RoundingShowsHundred | src/pages/consultant/ConsultantAttendance.tsx:282 | 199 present and 1 absent shows 100: the converse fails from 200 days on |
| ConsultantAttendance.MonthlySummary | src/pages/consultant/ConsultantAttendance.tsx:214-294 | without a wallet the summary is reset to zeros; after a failed read it keeps its previous value; otherwise the counting loop yields the three counts, their sum is at most the row count, and the percentage is the guarded rounding |
| Text.Trim | src/pages/admin/AdminConsultants.tsx:102 | no whitespace at either end, no longer than the input; an already trimmed string is unchanged |
| Text.TrimSplit | src/pages/admin/AdminConsultants.tsx:102 | the input is whitespace, then the trimmed text, then whitespace |
| Text.Lower | src/pages/admin/AdminConsultants.tsx:177-178 | same length, each character lower-cased |
| Text.ContainsAt | src/pages/consultant/ConsultantOpportunities.tsx:226-228 | `includes` holds exactly when the needle occurs in the text at some position |
| Text.LowerIdempotent | src/pages/admin/AdminConsultants.tsx:177-178 | lower-casing twice is lower-casing once |
| Text.Split | src/pages/admin/AdminConsultants.tsx:101 | at least one piece, none containing the separator; a separator-free string is its own single piece |
| Text.SplitJoin | src/pages/admin/AdminConsultants.tsx:101 | splitting a join of separator-free pieces gives the pieces back |
| Text.JoinSplit | src/pages/admin/AdminConsultants.tsx:101 | joining the pieces of a split gives the string back |
| Seqs.Filter | src/pages/admin/AdminConsultants.tsx:103 | every kept element satisfies the predicate; there are exactly as many as elements of the input that satisfy it |
| Seqs.FilterFacts | src/pages/admin/AdminConsultants.tsx:173-181 | the kept elements come from the input, in order, and every element that satisfies the predicate is kept |
| Seqs.FilterTwice | src/pages/admin/AdminConsultants.tsx:173-181 | filtering twice is filtering once |
| Seqs.SubsequenceCount | src/pages/admin/AdminConsultants.tsx:103 | a subsequence whose elements all pass is no longer than the number of passing elements |
| Seqs.FilterUnique | src/pages/admin/AdminConsultants.tsx:103 | the filter is the only subsequence whose elements all pass and that has one element per passing element |
| AdminConsultants.SplitSkills | src/pages/admin/AdminConsultants.tsx:100-103 | no skill is empty, has whitespace at either end, or contains a comma; the skills are the trimmed comma pieces, in order; every non-blank piece is kept, and there is one skill per non-blank piece |
| AdminConsultants.SplitSkillsExact | src/pages/admin/AdminConsultants.tsx:100-103 | those facts pin the list down: any ordered selection of the trimmed pieces with one non-empty entry per non-blank piece is the skill list |
| AdminConsultants.NoSkills | src/pages/admin/AdminConsultants.tsx:100-103 | an empty field gives no skills, and no skills are written out as an empty field |
| AdminConsultants.OneSkill | src/pages/admin/AdminConsultants.tsx:100-103 | a comma-free field with some text gives exactly its trimmed text |
| AdminConsultants.SkillsRoundTrip | src/pages/admin/AdminConsultants.tsx:100-103 | clean skills joined with commas are read back unchanged, the empty list included |
| AdminConsultants.SplitSkillsIdempotent | src/pages/admin/AdminConsultants.tsx:100-103 | re-reading a written-out skill list changes nothing |
| AdminConsultants.ToPayload | src/pages/admin/AdminConsultants.tsx:98-123 | `cgpa` is null exactly when its field is empty, else the parsed number; `deadline` is null exactly when empty, else the field; skills are the split skills of the field; the text fields are copied |
| AdminConsultants.FilterConsultants | src/pages/admin/AdminConsultants.tsx:172-181 | the shown consultants are an order-preserving subsequence; each matches every set filter; every matching consultant is shown, and the list is exactly as long as the number of matching entries |
| AdminConsultants.NoFiltersShowAll | src/pages/admin/AdminConsultants.tsx:174-179 | with all three filters empty the whole list is shown |
| AdminConsultants.SearchIgnoresCase | src/pages/admin/AdminConsultants.tsx:176-178 | a lower-cased search term shows the same list as the original one |
| AdminConsultants.FilterConsultantsIdempotent | src/pages/admin/AdminConsultants.tsx:172-181 | filtering the filtered list again changes nothing |
| AdminConsultants.Filled | src/pages/admin/AdminConsultants.tsx:73 | a missing percentage counts as 0, a present one as itself |
| AdminConsultants.StoredAverage | src/pages/admin/AdminConsultants.tsx:66-78 | 0 for no rows |
| AdminConsultants.AverageCard | src/pages/admin/AdminConsultants.tsx:53-78 | the card has no value ("Loading...") exactly when the read failed; an empty table shows 0; otherwise it shows the stored average |
| AdminConsultants.StoredAverageBounds | src/pages/admin/AdminConsultants.tsx:66-78 | with stored values in [0, 100] the average lies in [0, 100] |
| AdminConsultants.MissingCountsAsZero | src/pages/admin/AdminConsultants.tsx:72-77 | a null value weighs like a stored 0 and still counts in the denominator |
| ConsultantOpportunities.NormalizeSkill | src/pages/consultant/ConsultantOpportunities.tsx:143-144 | only `a-z` and `0-9` remain, and the result is no longer than the input |
| ConsultantOpportunities.NormalizeIgnoresTrim | src/pages/consultant/ConsultantOpportunities.tsx:143-144 | the `trim` changes nothing, since the character filter drops whitespace anyway |
| ConsultantOpportunities.NormalizeIdempotent | src/pages/consultant/ConsultantOpportunities.tsx:143-144 | normalising twice is normalising once |
| ConsultantOpportunities.FilteredJobs | src/pages/consultant/ConsultantOpportunities.tsx:225-231 | an order-preserving subsequence of the jobs; a job is shown exactly when title, duration and location each contain their lower-cased search text; the list is exactly as long as the number of matching entries |
| ConsultantOpportunities.EmptySearchShowsAll | src/pages/consultant/ConsultantOpportunities.tsx:225-231 | with all three boxes empty every job is shown |
| ConsultantOpportunities.FinalRecommendedJobs | src/pages/consultant/ConsultantOpportunities.tsx:347-349 | a subsequence of the jobs; a job is in it exactly when some recommendation has its title and company; it is exactly as long as the number of such entries |
| ConsultantOpportunities.FindJob | src/pages/consultant/ConsultantOpportunities.tsx:537-539 | None exactly when no job has the entry's title and company; otherwise the first job that has them |
| ConsultantOpportunities.RecommendedList | src/pages/consultant/ConsultantOpportunities.tsx:535-541 | one card per entry that finds a job, so at most as many cards as entries; each card is a posted, recommended job; every entry that finds a job shows it |
| ConsultantOpportunities.RecommendedPosition | src/pages/consultant/ConsultantOpportunities.tsx:535-541 | the card of a matched entry is its first matching job, placed right after the cards of the matched entries before it |
| ConsultantOpportunities.MatchedCountGrows | src/pages/consultant/ConsultantOpportunities.tsx:535-541 | a matched entry's card comes before the card of every later matched entry, so the cards keep entry order |
| ConsultantOpportunities.RepeatedEntryShownTwice | src/pages/consultant/ConsultantOpportunities.tsx:535-541 | an entry named twice gives two identical cards |
| ConsultantOpportunities.RenderedAreFinal | src/pages/consultant/ConsultantOpportunities.tsx:347-349 | every rendered recommendation is in `finalRecommendedJobs` |
| ConsultantOpportunities.FinalAreRendered | src/pages/consultant/ConsultantOpportunities.tsx:535-541 | every job of `finalRecommendedJobs` has a rendered card with its title and company |
| ConsultantOpportunities.StripFences | src/pages/consultant/ConsultantOpportunities.tsx:86 | never longer; text that neither opens with "```json" nor ends with "```" is unchanged |
| ConsultantOpportunities.CleanReply | src/pages/consultant/ConsultantOpportunities.tsx:322 | never longer than the reply; a reply that neither opens with "```json" nor ends with "```" after trimming comes out trimmed and otherwise unchanged |
| ConsultantOpportunities.OpeningDropped | src/pages/consultant/ConsultantOpportunities.tsx:86 | an opening "```json" is removed with the whitespace after it |
| ConsultantOpportunities.ClosingDropped | src/pages/consultant/ConsultantOpportunities.tsx:86 | a closing "```" is removed with the whitespace before it |
| ConsultantOpportunities.FencedReply | src/pages/consultant/ConsultantOpportunities.tsx:86 | a trimmed body wrapped as "```json", newline, body, newline, "```" comes out as exactly the body |
| ConsultantOpportunities.ScoreColor | src/pages/consultant/ConsultantOpportunities.tsx:218-223 | success exactly from 90, primary exactly in [80, 90), warning exactly in [70, 80), muted exactly below 70 |
| ConsultantOpportunities.ScoreColorMonotone | src/pages/consultant/ConsultantOpportunities.tsx:218-223 | a higher score never gets a weaker colour |
| ConsultantOpportunities.OpportunitiesPage.constructor | src/pages/consultant/ConsultantOpportunities.tsx:21-31 | the page starts with the given resume and no applied jobs |
| ConsultantOpportunities.OpportunitiesPage.Apply | src/pages/consultant/ConsultantOpportunities.tsx:265-287 | without a resume nothing is sent and nothing changes; otherwise one application with the resume's name, e-mail and skills and the job's title and company is sent; on success exactly the job title is appended, so the `includes` check (`IsApplied`) holds for it; earlier entries are kept, and a title already applied stays applied |
| ConsultantOpportunities.OpportunitiesPage.LoadAppliedJobs | src/pages/consultant/ConsultantOpportunities.tsx:245-261 | with a resume e-mail and a successful query the list becomes the titles of that e-mail's applications; otherwise it is unchanged |
| ConsultantOpportunities.TitlesFor | src/pages/consultant/ConsultantOpportunities.tsx:250-254 | a title is listed exactly when some row with the e-mail names it; no more titles than rows |

## Left out

- Database reads, inserts and updates are inputs. A read is a sequence argument. Where the page handles a failed read, the read is an `Option` (`MonthRead` for the monthly summary) and `None` selects the page's error path. In `AttendanceTable.Submit` the parameter `StoreFailure` selects a failed read or insert. Row order is whatever the input gives, and the `order('attendance_date')` requests appear as the `DateDescending` precondition where the result depends on them.
- The LLM calls, prompts and fallback resume data are left out. Only the string clean-up of the reply (`CleanReply`) and the join of its `recommended_jobs` with the posted jobs are modelled. `JSON.parse` is not part of this model.
- Floating point: `Math.round((present / totalDays) * 100)` and the resume-compliance ratio are modelled on exact rationals, rounding halves up. In double precision the product can fall just below a `.5` boundary (for instance 29/200·100). There the page can show one less than the model.
- The averages are exact reals, with no `toFixed` formatting.
- Hours: `totalHours`, Avg/Day and the hours-from-times computation with `toFixed(2)` are floating-point display values. The upload form's `hours` arrives already parsed as an `Option<real>`, and `parseFloat` for `cgpa` is the function parameter `parseNumber` of `AdminConsultants.ToPayload`, so NaN is not modelled.
- `Text.Lower` lower-cases ASCII letters only. Other Unicode case mappings of `toLowerCase` are not modelled. `trim` and `\s` use the ECMAScript whitespace and line-terminator set.
- The random department and status assignment on the consultants page is left out; department and status are fields of the input.
- The read-then-write race between two concurrent uploads is left out. `Submit` is one sequential step.
- The current-month date range of the monthly summary, and the `.limit(10)` of the recent list, are query parameters of the database. Their results are the input rows.
- The badge colours and icons are JSX. They are modelled only as the `StatusBadge` choice, and `getStatusIcon` is left out.
- The form resets, alerts and loading flags after a submit only touch React state with no logic. They are left out.
- Wallet and session handling, file reading and the remote resume analysis are browser or foreign APIs. None of them is part of this model.
- ConsultantAttendance.MonthlyPercent: the page's "100 % exactly when there is no absence and no late arrival" holds only below 200 counted days. `HundredMeansPerfect` proves it there, and `RoundingShowsHundred` shows 199 present and 1 absent rounding to 100.
- AdminReports.AttendanceTable.Submit: the `.select('status').eq('user_id', …)` read has no `order`, so the database may return the user's statuses in any order. `Submit` takes them as the input `fetched`, required to be a permutation of the stored statuses. It states the stored percentage for that order only. `OrderMatters` shows that the order can change it.
- `getMatchScoreColor` (ConsultantOpportunities.tsx:218-223) is defined but never called; `ScoreColor` models the definition, not anything rendered.
- `normalizeSkill` (ConsultantOpportunities.tsx:143-144) and `finalRecommendedJobs` (ConsultantOpportunities.tsx:347-349) are defined but never used by anything the page renders. `NormalizeSkill` and `FinalRecommendedJobs` model those definitions, not visible behaviour. The rendered list is `RecommendedList`.
- AdminReports.FetchTopUsers: the joined user name (`users!attendance_user_id_fkey`) is a map from user id to name given as input. A record whose user has no name gives no card.
