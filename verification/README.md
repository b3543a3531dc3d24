# Mantra tracker — a Dafny model of its core

The mantra tracker is a Next.js application where a user keeps mantras
(a title, a text, a daily repetition goal, an optional category) and logs
practice sessions against them (a repetition count at a local date and hour).
This project models its core as pure functions over immutable values and
proves what the code promises:

- **Store operations** (`MantraService`, `HybridService`): add, update and
  delete a mantra, log a session, today's sessions, all-time totals, and the
  consecutive-day streak. The local-storage branch of the hybrid service and its
  legacy exports are written as the loops the code runs. They are proved equal
  to the functional definitions.
- **Shared building blocks**:
  - `Model`: records and the `{ ...m, ...patch }` merge.
  - `Practice`: filter, sum, per-day totals and the set of practised days.
  - `Streaks`: three streak policies and the longest run.
  - `Ranking`: a stable sort by key (equal keys keep their input order, as
    `Array.prototype.sort` guarantees) and `slice(0, n)`.
  - `Text`: JavaScript `trim`, `includes`, `split`, ASCII case mapping and
    `String(n)`.
- **Statistics and badges**:
  - `StatsService`: the summary and the most practised mantras.
  - `AchievementsService`: ten threshold badges.
  - `AchievementsPanel`: the panel's own statistics, achievements and "next
    goals".
  - `StatsRoute`: `GET /api/stats` over the query results.
- **Backup**: `DataExport` covers export, validation of an imported document,
  and the replace and merge imports over JSON values. `DropboxUpload` covers
  `POST /api/dropbox/upload`.
- **UI logic**:
  - `MantraList`: the per-mantra counters and progress bar.
  - `EditDialog`: the form, `parseInt(value) || 1`, submit and cancel.
  - `SignupPage`: the sign-up checks and error toasts.
  - `ProfileMenu`: `getInitials`.
- **Accounts**:
  - `RegisterRoute`: `POST /api/auth/register`, including its e-mail regular
    expression.
  - `MockAuth`: the in-memory mock authentication service.
  - `BearerAuth`: the bearer-token check shared by the API routes.

Dates are `Stamp(day, hour)`: a local calendar-day number and an hour. Two
sessions share the key `toISOString().split('T')[0]` of their local midnight
exactly when they share a day number. "Today" is a parameter.

The following are parameters, not modelled code:
- id generation (`freshId`) and clocks (`now`, `nowMs`);
- password hashing, token signing and token verification;
- `JSON.parse` results, SQL query results and the Dropbox HTTP reply;
- `toISOString` rendering.

Three streak policies coexist in the code:
- anchored: `getCurrentStreak` in both services;
- grace: the achievements panel, which starts from yesterday when today has
  no practice;
- leading: the stats route walks its descending date rows.

`Streaks` relates them. `LeadingRunIsAnchored` shows that the route's policy
equals the anchored one on the rows its query returns. `GraceAtLeastAnchored`
shows how the panel's policy differs.

## Model

| member | source | states |
|---|---|---|
| Model.ApplyPatch | src/lib/mantra-service.ts:43-47 | every field present in the patch wins, every absent field keeps the stored value, and the update time is always `now` |
| MantraService.AddMantra | src/lib/mantra-service.ts:25-36 | the new mantra is appended after all existing ones, sessions are untouched, and it carries the fresh id, the draft's fields and `now` as both timestamps |
| MantraService.FindIndex | src/lib/mantra-service.ts:40 | -1 exactly when no mantra has the id, otherwise the first index holding it |
| MantraService.UpdateMantra | src/lib/mantra-service.ts:38-51 | `null` with the store unchanged exactly when the id is absent; otherwise only the first slot with the id is replaced by the patched mantra, and the length and sessions are kept |
| MantraService.DeleteMantra | src/lib/mantra-service.ts:53-59 | the kept mantras are exactly those with another id, in order; the result is true exactly when some mantra had the id |
| MantraService.AddSession | src/lib/mantra-service.ts:80-89 | the session built from the draft and the fresh id is appended; mantras are untouched |
| MantraService.TodaysSessions | src/lib/mantra-service.ts:91-102 | a session is kept exactly when it belongs to the mantra and is dated today |
| MantraService.TodaysSessionsIsDayOfMantra | src/lib/mantra-service.ts:96-101 | today's sessions of a mantra are that mantra's sessions restricted to today, in stored order |
| MantraService.TotalSessions | src/lib/mantra-service.ts:104-109 | a mantra without sessions totals 0 |
| MantraService.MantraTotalOfAbsent | src/lib/mantra-service.ts:104-109 | filtering out every session leaves a sum of 0: a mantra with no stored session totals 0 |
| MantraService.AddSessionTotal | src/lib/mantra-service.ts:80-109 | logging a session adds its count to its own mantra's total and leaves every other mantra's total unchanged |
| MantraService.CurrentStreak | src/lib/mantra-service.ts:111-144 | 0 for an empty history or without practice today; otherwise every day of the streak window has a session and the day before it has none |
| MantraService.CurrentStreakOrderFree | src/lib/mantra-service.ts:116-130 | sorting the sessions first does not matter: any permutation of the history has the same streak |
| MantraService.CurrentStreakSameDay | src/lib/mantra-service.ts:125-141 | a further session on a day that already has one leaves the streak unchanged |
| MantraService.MatchesFrom | src/lib/mantra-service.ts:152 | the position-by-position test accepts exactly the strings whose first 19 characters fit `dddd-dd-ddTdd:dd:dd` |
| MantraService.DateReviver | src/lib/mantra-service.ts:151-157 | a string that starts like a timestamp becomes a date built from that very text; every other value passes through unchanged |
| MantraService.DateReviverConvertsTimestamp | src/lib/mantra-service.ts:152-154 | a full ISO timestamp is revived as a date |
| MantraService.DateReviverKeepsOthers | src/lib/mantra-service.ts:152-156 | a bare date, a time without seconds and a number are not revived |
| HybridService.AddMantra | src/lib/hybrid-mantra-service.ts:94-104 | the local branch (and the legacy export at lines 219-230) appends the new mantra and computes exactly what `MantraService.AddMantra` computes |
| HybridService.UpdateMantra | src/lib/hybrid-mantra-service.ts:129-141 | the `findIndex` loop returns `null` exactly when the id is absent and agrees with `MantraService.UpdateMantra` |
| HybridService.DeleteMantra | src/lib/hybrid-mantra-service.ts:160-165 | the filtering loop agrees with `MantraService.DeleteMantra` |
| HybridService.AddSession | src/lib/hybrid-mantra-service.ts:198-206 | appends the session and agrees with `MantraService.AddSession` |
| HybridService.TodaysSessions | src/lib/hybrid-mantra-service.ts:274-285 | the filtering loop keeps exactly the sessions that `MantraService.TodaysSessions` keeps |
| HybridService.TotalSessions | src/lib/hybrid-mantra-service.ts:287-292 | the summing loop returns that mantra's all-time repetition total |
| HybridService.CurrentStreak | src/lib/hybrid-mantra-service.ts:294-327 | collecting day keys into a set and stepping back from today computes the anchored streak |
| Practice.Filter | src/lib/mantra-service.ts:107 | the kept elements are exactly those satisfying the predicate, never more than the input |
| Practice.FilterAppend | src/lib/mantra-service.ts:96-101 | filtering distributes over concatenation, so the kept elements stay in stored order |
| Practice.FilterKeepsAll | src/lib/mantra-service.ts:56-58 | the filter keeps every element, and so the length, exactly when all of them satisfy the predicate |
| Practice.FilterPartition | src/lib/mantra-service.ts:56-58 | the two sides of a predicate and its negation together have the input's length |
| Practice.SumCountsAppend | src/lib/stats-service.ts:39 | the repetition sum of a concatenation is the sum of the parts |
| Practice.SumCountsPermutation | src/lib/stats-service.ts:39 | the repetition sum does not depend on the order of the sessions |
| Practice.SumCountsNonNegative | src/lib/stats-service.ts:39 | non-negative counts give a non-negative total |
| Practice.DaySet | src/lib/achievements-service.ts:28-34 | a day is in the set exactly when some session falls on it, and there are no more days than sessions |
| Practice.DayTotalAbsent | src/lib/stats-service.ts:81 | a day without sessions totals 0 (`dateMap[dateStr] \|\| 0`) |
| Practice.MantraTotalSnoc | src/lib/stats-service.ts:42-45 | one more session adds its count to its own mantra's total and nothing to the others |
| Practice.DayTotalSnoc | src/lib/stats-service.ts:58-72 | one more session adds its count to its own day's total and nothing to the other days |
| Streaks.Run | src/lib/mantra-service.ts:133-141 | the length of the practised window ending at a day: every day in it is practised, the day before is not, and it is bounded by the number of days |
| Streaks.RunIsLongest | src/lib/mantra-service.ts:133-141 | no fully practised window ending at that day is longer than `Run` |
| Streaks.RunUnique | src/lib/mantra-service.ts:133-141 | `Run` is the only length whose window is practised and whose preceding day is not |
| Streaks.GraceStreak | src/components/achievements.tsx:69-81 | the run from today when today is practised, from yesterday otherwise |
| Streaks.GraceAtLeastAnchored | src/components/achievements.tsx:69-81 | the panel's streak is never below the store's streak, and they differ only when today is missing and yesterday is practised |
| Streaks.GraceCreditsYesterday | src/components/achievements.tsx:70-72 | practice yesterday but not today reads as 0 in the store and at least 1 in the panel |
| Streaks.LeadingRun | src/app/api/stats/route.ts:79-88 | the leading entries whose i-th element lies i days before today, stopping at the first mismatch |
| Streaks.LeadingRunIsAnchored | src/app/api/stats/route.ts:67-88 | on strictly descending days none of which is after today, the route's policy equals the anchored streak |
| Streaks.LeadingRunFutureDay | src/app/api/stats/route.ts:79-88 | a future-dated first row makes the route report a streak of 0 |
| Streaks.Insert | src/components/achievements.tsx:65 | inserting a day into an increasing list keeps it strictly increasing and adds exactly that day |
| Streaks.SortedDays | src/components/achievements.tsx:65 | `[...practiceDates].sort()` is strictly increasing and holds exactly the practised days |
| Streaks.RunEndingAt | src/components/achievements.tsx:86-93 | the running streak at each index is between 1 and the index plus one |
| Streaks.LongestUpTo | src/components/achievements.tsx:83-93 | the running maximum is 0 only for no days, bounds every running streak, and is attained by one of them |
| Streaks.LongestRun | src/components/achievements.tsx:83-93 | the longest streak is 0 exactly when there are no practice days |
| Streaks.RunStep | src/components/achievements.tsx:89-91 | a run ending on a practised day is one longer than the run ending the day before |
| Streaks.NoDayBefore | src/components/achievements.tsx:89-91 | at the first entry, or where consecutive sorted days differ by more than one, the previous day has no practice |
| Streaks.RunEndingAtConsecutive | src/components/achievements.tsx:89-91 | where sorted days are one apart, the running streak extends and so does the run of practised days |
| Streaks.RunEndingAtRestart | src/components/achievements.tsx:83-91 | at the first entry or after a gap, the running streak restarts at 1, as does the run of practised days |
| Streaks.RunEndingAtIsRun | src/components/achievements.tsx:86-93 | the running streak at each index of the sorted days is exactly the run of practised days ending on that day |
| Streaks.LongestRunIsMaxRun | src/components/achievements.tsx:83-93 | the longest streak is the maximum run: no run of practised days is longer, and some practised day ends a run exactly that long |
| Streaks.RunEndingAtCovers | src/components/achievements.tsx:86-93 | a window of k practised days ending at an entry gives a running streak of at least k there |
| Streaks.LongestRunBoundsRun | src/components/achievements.tsx:83-93 | the longest streak is at least every run of practised days, in particular the current streak |
| Ranking.InsertBy | src/lib/stats-service.ts:114 | insertion keeps the list sorted by key and adds exactly one copy of the element |
| Ranking.SortBy | src/lib/stats-service.ts:114 | the sorted list is a permutation of the input, ordered by key |
| Ranking.InsertByKeyOrder | src/lib/stats-service.ts:114 | an inserted element comes before every element of equal key already in the sorted list |
| Ranking.SortByStable | src/lib/stats-service.ts:114 | the sort is stable: the elements of any one key appear in input order |
| Ranking.TakeSortedStable | src/lib/stats-service.ts:114-116 | the entries of one key kept by the slice are the first ones of that key in input order |
| Ranking.SliceEnd | src/lib/stats-service.ts:116 | `slice(0, n)` keeps n entries clamped to the length for n >= 0 |
| Ranking.Take | src/lib/stats-service.ts:116 | the slice is a prefix of the list, of the clamped length |
| Ranking.TakeSorted | src/lib/stats-service.ts:114-116 | a prefix of a sorted list is sorted, is drawn from the list, and no element left out has a smaller key than one kept |
| Ranking.TakeSmallest | src/components/achievements.tsx:226-229 | the first k after sorting are at most k of the smallest keys, and all elements when fewer remain |
| StatsService.CompletedCount | src/lib/stats-service.ts:42-46 | the length of the list filtered to mantras that reached their goal; at most the number of mantras; positive exactly when some mantra reached its goal; equal to the number of mantras exactly when all did |
| StatsService.CompletionRate | src/lib/stats-service.ts:49 | a percentage in [0, 100], 0 without mantras, proportional to completed over total, and 100 exactly when every mantra is completed |
| StatsService.Window | src/lib/stats-service.ts:74-83 | n consecutive days ending today, oldest first, each with that day's summed counts |
| StatsService.WindowOfNothing | src/lib/stats-service.ts:81 | with no sessions every day of the window reports 0 |
| StatsService.WindowAddSession | src/lib/stats-service.ts:58-83 | logging a session raises exactly its own day's entry of the window, by its count |
| StatsService.Week | src/lib/stats-service.ts:74-83 | seven entries, oldest first, labelled with the six days before today and today, each with its day's total |
| StatsService.PlaceholderLongest | src/lib/stats-service.ts:86 | at least 7 and at least the current streak, and one of the two |
| StatsService.CalculateMantraStats | src/lib/stats-service.ts:30-98 | totals match the store, every mantra counts as active, the completed count is the number of mantras at goal, the rate is that count as a percentage of the mantras, the streak is the store's streak, the longest streak is `Math.max(currentStreak, 7)`, and the last seven days, oldest first, carry their totals |
| StatsService.Rank | src/lib/stats-service.ts:104-111 | each mantra paired with its own all-time total, in order |
| StatsService.RankedEntries | src/lib/stats-service.ts:104-111 | any entry drawn from the ranking carries its own mantra's total |
| StatsService.MostPracticed | src/lib/stats-service.ts:100-117 | at most `limit` entries, non-increasing totals, each a listed mantra with its true total |
| StatsService.MostPracticedAreLargest | src/lib/stats-service.ts:113-116 | the entries shown are drawn from the ranking and none left out has a larger total than one shown |
| StatsService.MostPracticedTiesInListOrder | src/lib/stats-service.ts:113-116 | among mantras with equal totals, the ones shown are the first ones in list order |
| StatsService.MostPracticedTieShowsFirst | src/lib/stats-service.ts:113-116 | of two mantras tied at 0, a limit of 1 shows the one listed first |
| AchievementsService.InputsOf | src/lib/achievements-service.ts:13-34 | the thresholds see the mantra count, the repetition sum, whether some goal is reached, the store's streak and the number of practice days |
| AchievementsService.BadgesFor | src/lib/achievements-service.ts:36-107 | ten badges in the listed order, each earned exactly at its threshold |
| AchievementsService.GetAchievements | src/lib/achievements-service.ts:12-110 | each of the ten badges is earned exactly when its statistic of the store reaches the threshold |
| AchievementsService.BadgesNested | src/lib/achievements-service.ts:51-98 | a harder badge of a family implies every easier one |
| AchievementsService.LongStreakEarnsPracticeDays | src/lib/achievements-service.ts:86-106 | a 30-day streak implies the 10-practice-days badge |
| AchievementsService.StreakBadgesNeedToday | src/lib/achievements-service.ts:72-92 | without a session today no streak badge is earned |
| AchievementsPanel.MorningNotEvening | src/components/achievements.tsx:58-59 | no hour counts as both morning and evening |
| AchievementsPanel.CountHours | src/components/achievements.tsx:58-59 | the number of sessions in an hour band is the length of the sessions filtered to that band, and at most the number of sessions |
| AchievementsPanel.MorningPlusEvening | src/components/achievements.tsx:58-59 | morning and evening sessions together are at most all sessions |
| AchievementsPanel.ComputeStats | src/components/achievements.tsx:39-103 | all zeros without sessions; otherwise the grace streak, a longest streak that is the longest run of practised days, the repetition sum, the number of practice days, and the morning and evening session counts |
| AchievementsPanel.PanelAchievements | src/components/achievements.tsx:105-223 | ten achievements with positive requirements, each with its id, threshold and statistic: "first-step" needs 1 and shows the larger of the current and longest streaks; 3, 7, 30 and 100 on the current streak; 50 and 200 on total repetitions; 30 on practice days; 10 on morning and 10 on evening sessions; every one except "first-step" is unlocked exactly when its count reaches its requirement |
| AchievementsPanel.UnlockedMonotone | src/components/achievements.tsx:105-223 | larger statistics never lock an achievement that was unlocked |
| AchievementsPanel.StreakAchievementsNested | src/components/achievements.tsx:118-185 | a longer streak achievement unlocked implies the shorter ones are, and likewise for the two repetition achievements |
| AchievementsPanel.Threshold | src/components/achievements.tsx:118-222 | an achievement unlocked exactly at its requirement |
| AchievementsPanel.FirstStepException | src/components/achievements.tsx:107-117 | "first-step" follows total repetitions, not its displayed count, so it can stay locked at count 1 |
| AchievementsPanel.NextAchievements | src/components/achievements.tsx:226-229 | at most three locked achievements, ordered by remaining distance |
| AchievementsPanel.NextAchievementsAreClosest | src/components/achievements.tsx:226-229 | the next goals are the locked achievements closest to their requirement: three while three are locked, all of them otherwise |
| AchievementsPanel.NextAchievementsTiesInListOrder | src/components/achievements.tsx:226-229 | among locked achievements equally far from their target, the ones shown are the first ones listed |
| BearerAuth.BearerToken | src/app/api/dropbox/upload/route.ts:10-16 | fails with "Not authenticated" exactly without a `Bearer ` header, otherwise the header is the prefix followed by the token |
| BearerAuth.Authenticate | src/app/api/dropbox/upload/route.ts:9-24 | "Not authenticated" without a bearer header, "Invalid token" when verification fails, the verified claims otherwise |
| BearerAuth.BearerTokenExample | src/app/api/stats/route.ts:30-34 | the token is what follows the prefix; the prefix is case-sensitive and needs its space |
| StatsRoute.UserIdFromAuth | src/app/api/stats/route.ts:28-41 | the user id of verified claims, or one of the two authentication errors |
| StatsRoute.DiffDaysIsDayDistance | src/app/api/stats/route.ts:81 | the floored day difference to a row dated at midnight is the distance between the day numbers |
| StatsRoute.CurrentStreak | src/app/api/stats/route.ts:75-88 | the loop counts the leading rows whose i-th date lies i days back, never more than the rows |
| StatsRoute.RouteStreakIsAnchored | src/app/api/stats/route.ts:67-88 | with grouped, descending rows none after today, the route's streak equals the store's anchored streak |
| StatsRoute.FindRow | src/app/api/stats/route.ts:109-111 | none exactly when no row is for the day; otherwise the first row for that day |
| StatsRoute.DailyActivity | src/app/api/stats/route.ts:102-117 | thirty consecutive days ending today, each with the matching row's total or 0 |
| StatsRoute.DailyActivityMatchesSessions | src/app/api/stats/route.ts:91-117 | when the rows are the per-day totals of the sessions, each window day reports that day's total |
| StatsRoute.CountForDay | src/app/api/stats/route.ts:109-115 | a window day's count is its day total, whether or not it has a row |
| StatsRoute.ErrorStatus | src/app/api/stats/route.ts:132 | 401 exactly when the message mentions "authenticated", otherwise 500 |
| StatsRoute.ErrorStatusExamples | src/app/api/stats/route.ts:128-133 | a missing header gives 401, while a token failing verification gives 500 |
| StatsRoute.Get | src/app/api/stats/route.ts:44-135 | an authentication failure becomes its error body; an authenticated request whose queries succeed gets the stats body with the queried totals, the leading-run streak and the 30-day window; a query error becomes the error body with its message and mapped status |
| DataExport.Earliest | src/lib/data-export-service.ts:39-40 | `null` exactly without sessions, otherwise the date of a session no later than any other |
| DataExport.Latest | src/lib/data-export-service.ts:39-41 | `null` exactly without sessions, otherwise the date of a session no earlier than any other |
| DataExport.Export | src/lib/data-export-service.ts:34-57 | the backup holds the version, the export time, both lists as stored, their lengths, and a date range that is null exactly without sessions |
| DataExport.DateRangeSpansSessions | src/lib/data-export-service.ts:39-41 | with sessions, every session lies between the exported earliest and latest dates |
| DataExport.EstimateSize | src/lib/data-export-service.ts:276-283 | bytes below 1 KiB, kilobytes in [1, 1024) below 1 MiB, megabytes from 1 MiB on, each value the byte count scaled |
| DataExport.ExportSummary | src/lib/data-export-service.ts:271-290 | the numbers of mantras and sessions with the size estimate |
| DataExport.Field | src/lib/data-export-service.ts:173-201 | a property read finds a value exactly on an object that has the key |
| DataExport.Flaws | src/lib/data-export-service.ts:189-204 | the indices of the failing records, increasing, every failing index listed |
| DataExport.NoFlawsIff | src/lib/data-export-service.ts:189-207 | no index is flawed exactly when every record passes |
| DataExport.MantraProblems | src/lib/data-export-service.ts:188-195 | one problem per failing mantra record, naming its index; none exactly when every mantra record is well shaped |
| DataExport.SessionProblems | src/lib/data-export-service.ts:198-205 | one problem per failing session record, naming its index; none exactly when every session record is well shaped |
| DataExport.FieldProblems | src/lib/data-export-service.ts:175-185 | the version, mantras and sessions problems appear exactly when their check fails |
| DataExport.Validate | src/lib/data-export-service.ts:165-208 | a non-object gives "Invalid data format"; a `null` record raises the property-read error; otherwise the problems of every check |
| DataExport.ValidateAcceptsIff | src/lib/data-export-service.ts:165-208 | validation finds nothing exactly when the version is truthy, both lists are arrays and every record is well shaped |
| DataExport.KnownIds | src/lib/data-export-service.ts:222 | the set holds the saved ids a `has` can match: all except object and array ids |
| DataExport.MergeRecords | src/lib/data-export-service.ts:221-234 | saved records stay in front, incoming records with unsaved ids are appended in order, the others are skipped, and imported plus skipped is the incoming count |
| DataExport.MergeKeepsSavedRecords | src/lib/data-export-service.ts:223-232 | merging never drops a saved record and appends exactly the incoming records with new ids |
| DataExport.MergeOfKnownIsNoOp | src/lib/data-export-service.ts:225-232 | merging records whose ids are all saved changes nothing and skips them all |
| DataExport.ImportList | src/lib/data-export-service.ts:211-268 | replace saves the incoming list and counts all of it; merge is `MergeRecords` |
| DataExport.ImportFromJson | src/lib/data-export-service.ts:97-132 | success exactly when parsing succeeds and validation finds nothing; on failure nothing is saved and the errors are the parse error, the property-read error or the validation problems; on success both lists are imported and the warnings name each skipped mantra's title, then each skipped session's id, in order |
| DataExport.ExportJsonFields | src/lib/data-export-service.ts:43-56 | the backup document carries the version and both record lists |
| DataExport.MantraJsonFields | src/lib/data-export-service.ts:46 | an exported mantra carries its id, title, text and goal |
| DataExport.SessionJsonFields | src/lib/data-export-service.ts:47 | an exported session carries its id, mantra id, count and date |
| DataExport.ExportedRecordsAreShaped | src/lib/data-export-service.ts:187-205 | the records exported from a store with non-empty fields pass the record checks |
| DataExport.WellShapedValidates | src/lib/data-export-service.ts:165-208 | a document with a version and two lists of well-shaped records validates |
| DataExport.ExportValidates | src/lib/data-export-service.ts:34-57 | a backup of such a store validates: export and import agree on the format |
| DataExport.ReplaceRestoresBackup | src/lib/data-export-service.ts:97-132 | importing a store's backup in replace mode succeeds and saves exactly the store's records |
| DataExport.MergeOwnList | src/lib/data-export-service.ts:221-234 | merging a list into itself imports nothing and skips every record |
| DataExport.ExportedIdsAreValues | src/lib/data-export-service.ts:46-47 | exported ids are strings, so a merge can match them |
| DataExport.MergeOfOwnBackupIsNoOp | src/lib/data-export-service.ts:211-268 | merging the backup of what is already saved succeeds, imports nothing, warns once per record and leaves the store as it was |
| MantraList.Count | src/components/mantra-list.tsx:89 | a missing counter reads as 0 |
| MantraList.InitialCounters | src/components/mantra-list.tsx:21-29 | one counter per listed mantra, holding its repetitions logged today |
| MantraList.TodayCountSnoc | src/components/mantra-list.tsx:24-25 | a new session changes today's count only of its own mantra, and only when dated today |
| MantraList.AddRepetition | src/components/mantra-list.tsx:31-49 | one one-repetition session is logged and only that mantra's counter goes up by one |
| MantraList.AddRepetitionKeepsAgreement | src/components/mantra-list.tsx:31-49 | when the counters match today's logged repetitions, they still match after a repetition |
| MantraList.Reset | src/components/mantra-list.tsx:51-56 | only that mantra's counter becomes 0 |
| MantraList.Progress | src/components/mantra-list.tsx:91 | 0 without a positive goal, otherwise the share of the goal reached, capped at 100 |
| MantraList.ProgressFullIff | src/components/mantra-list.tsx:91 | the bar is full exactly when today's count reaches a positive goal |
| EditDialog.FormOf | src/components/edit-mantra-dialog.tsx:58-63 | the form shows the mantra's title, text, category and goal |
| EditDialog.Load | src/components/edit-mantra-dialog.tsx:56-65 | a present mantra replaces the form and `null` keeps it |
| EditDialog.DigitRun | src/components/edit-mantra-dialog.tsx:184 | the longest prefix of decimal digits |
| EditDialog.ParseInt | src/components/edit-mantra-dialog.tsx:184 | NaN exactly when no digit follows the leading space and sign; otherwise the value of those digits, negated after `-` |
| EditDialog.ParseIntUnsigned | src/components/edit-mantra-dialog.tsx:184 | text starting with a digit reads its leading digits |
| EditDialog.DigitsValueOfNatToString | src/components/edit-mantra-dialog.tsx:184 | the decimal digits of a number read back as the number |
| EditDialog.ParseIntOfDigits | src/components/edit-mantra-dialog.tsx:184 | a string of digits parses to its value |
| EditDialog.ParseIntOfNegatedDigits | src/components/edit-mantra-dialog.tsx:184 | `-` followed by digits parses to the value negated |
| EditDialog.ParseIntRoundTrip | src/components/edit-mantra-dialog.tsx:184 | `parseInt(String(n)) === n` for every natural number |
| EditDialog.GoalFromInput | src/components/edit-mantra-dialog.tsx:184 | never 0: NaN and 0 become 1, any other parsed number is kept |
| EditDialog.GoalFromInputRoundTrip | src/components/edit-mantra-dialog.tsx:184 | a positive goal typed in decimal is read back unchanged |
| EditDialog.PatchOf | src/components/edit-mantra-dialog.tsx:87-92 | the patch sets trimmed title and text, the category and the goal, and never the id or creation time |
| EditDialog.Submit | src/components/edit-mantra-dialog.tsx:74-107 | nothing without a mantra or with a blank title or text; otherwise saved exactly when the store has the id, and only a save closes the dialog |
| EditDialog.Cancel | src/components/edit-mantra-dialog.tsx:109-119 | the dialog closes and the form shows the edited mantra again |
| EditDialog.CancelUndoesEdits | src/components/edit-mantra-dialog.tsx:56-119 | cancelling after any edits gives the form loading the mantra gave |
| RegisterRoute.AtIndex | src/app/api/auth/register/route.ts:20 | the index of the first `@`, or the length without one |
| RegisterRoute.AtCountSplit | src/app/api/auth/register/route.ts:20 | the `@` count of a string splits around any of its `@` characters |
| RegisterRoute.EmailPatternIff | src/app/api/auth/register/route.ts:20-21 | the regular expression and the spelled-out test (one `@`, no white space, a `.` with text on both sides after it) accept the same strings |
| RegisterRoute.EmailPatternExamples | src/app/api/auth/register/route.ts:20-26 | "a@b.co" passes; a string without `@` or ending in `.` fails |
| RegisterRoute.Register | src/app/api/auth/register/route.ts:6-88 | 400 for a missing field, a bad email or a short password; 409 exactly for a taken email; 500 for a broken body; otherwise the user is appended and only the public fields and a token are returned; a rejection changes nothing |
| RegisterRoute.RegisterKeepsEmailsUnique | src/app/api/auth/register/route.ts:36-62 | registration never lets two users share an email |
| RegisterRoute.SecondRegistrationConflicts | src/app/api/auth/register/route.ts:38-45 | registering the same body again is refused with 409 and changes nothing |
| MockAuth.Token | src/lib/mock-auth.ts:30 | the token is `mock_token_`, the user's id, `_`, then the clock in decimal |
| MockAuth.TokenInjective | src/lib/mock-auth.ts:30 | a user's tokens from different clock readings differ |
| MockAuth.FindByEmail | src/lib/mock-auth.ts:25 | none exactly when no user has the email; otherwise the first user with it |
| MockAuth.Register | src/lib/mock-auth.ts:37-64 | "User already exists" for a taken email, then "Password must be..." below six characters, changing nothing; otherwise a new user with the next id is appended and the counter advances |
| MockAuth.Login | src/lib/mock-auth.ts:22-35 | a session exactly for a registered email with the development password, for that user |
| MockAuth.UserCount | src/lib/mock-auth.ts:67-69 | the number of registered users |
| MockAuth.InitialReachable | src/lib/mock-auth.ts:12-13 | the empty module state is consistent |
| MockAuth.RegisterKeepsReachable | src/lib/mock-auth.ts:37-64 | registration keeps ids sequential, the counter one past the last id, and emails distinct |
| MockAuth.ReachableIdsDistinct | src/lib/mock-auth.ts:52 | no two users ever share an id |
| MockAuth.LoginAfterRegister | src/lib/mock-auth.ts:22-64 | a user who just registered can log in with the development password and gets the same record |
| SignupPage.FailureToast | src/app/auth/signup/page.tsx:110-118 | the account-exists toast when the lower-cased message mentions it, else the password toast, else the generic toast with the message |
| SignupPage.SignUp | src/app/auth/signup/page.tsx:72-122 | the local checks run in order before any registration; a welcome exactly when they pass and registration succeeds; an error toast changes nothing |
| SignupPage.UserExistsIsRecognised | src/app/auth/signup/page.tsx:112 | the service's "User already exists" is recognised by the page's lower-cased check |
| SignupPage.TakenEmailShowsAccountExists | src/app/auth/signup/page.tsx:92-113 | signing up with a taken email shows the account-exists toast and changes nothing |
| ProfileMenu.FirstOf | src/components/user-profile-dropdown.tsx:111 | an empty word contributes nothing, any other word its first character |
| ProfileMenu.FirstsAreWordStarts | src/components/user-profile-dropdown.tsx:109-112 | the first letters of the words `split(' ')` gives are exactly the characters of the name that start a word |
| ProfileMenu.Initials | src/components/user-profile-dropdown.tsx:104-115 | "U" without a name; otherwise at most two characters: the upper-cased word starts of the name, in order |
| ProfileMenu.InitialsOfTwoWords | src/components/user-profile-dropdown.tsx:109-114 | "a b" gives "AB" |
| ProfileMenu.InitialsOfBlank | src/components/user-profile-dropdown.tsx:105-114 | a name of spaces gives no initials, not the fallback |
| DropboxUpload.ErrorStatus | src/app/api/dropbox/upload/route.ts:88-89 | 401 exactly when the message mentions "authenticated" or "Invalid token", otherwise 500 |
| DropboxUpload.AuthFailuresAre401 | src/app/api/dropbox/upload/route.ts:12-23 | both authentication failures map to 401 here |
| DropboxUpload.Dashed | src/app/api/dropbox/upload/route.ts:51 | every `:` and `.` becomes `-`, nothing else changes, so none remains |
| DropboxUpload.FileName | src/app/api/dropbox/upload/route.ts:50 | a non-blank string name is trimmed; a missing, null or blank name gives the default; any other value raises the `trim` error |
| DropboxUpload.PathOf | src/app/api/dropbox/upload/route.ts:52 | the path is the folder, the name, `-`, the dashed timestamp and `.json` |
| DropboxUpload.Content | src/app/api/dropbox/upload/route.ts:38-48 | backup text exactly when the body is an object whose `content` is a non-blank string |
| DropboxUpload.Post | src/app/api/dropbox/upload/route.ts:26-93 | authentication, then the server token, then the content decide the error in that order; a non-string file name gives 500 with the `trim` TypeError; a non-OK upload reply gives its status with "Dropbox upload failed" and the reply text as details; a thrown upload error gives its message with the 401/500 mapping; an OK reply gives the success message, the path and the reply's JSON |
| DropboxUpload.TrimErrorIs500 | src/app/api/dropbox/upload/route.ts:86-91 | the `trim` TypeError mentions neither authentication nor the token, so it maps to 500 |
| DropboxUpload.MissingCharNotContained | src/app/api/dropbox/upload/route.ts:89 | `includes` fails when the message lacks one of the needle's characters |
| Text.TrimStart | src/components/edit-mantra-dialog.tsx:79 | a suffix of the input, with only white space removed and none left in front |
| Text.TrimEnd | src/components/edit-mantra-dialog.tsx:79 | a prefix of the input, with only white space removed and none left behind |
| Text.Trim | src/components/edit-mantra-dialog.tsx:79 | a contiguous slice with no white space at either end, and everything cut off before and after it is white space; empty exactly when the input is all white space |
| Text.TrimKeepsTrimmed | src/components/edit-mantra-dialog.tsx:79 | a string without white space at either end trims to itself, so trimming is idempotent on it |
| Text.ContainsIff | src/app/auth/signup/page.tsx:112 | `includes` holds exactly when the text occurs at some position |
| Text.Upper | src/components/user-profile-dropdown.tsx:113 | same length, each ASCII letter upper-cased |
| Text.Lower | src/app/auth/signup/page.tsx:112 | same length, each ASCII letter lower-cased |
| Text.Split | src/components/user-profile-dropdown.tsx:110 | at least one piece, no piece holding the separator |
| Text.SplitJoin | src/components/user-profile-dropdown.tsx:110 | joining the pieces with the separator gives back the string |
| Text.NatToString | src/lib/mock-auth.ts:52 | `String(n)` is non-empty decimal digits, one digit exactly below 10, with no leading zero when longer |
| Text.NatToStringInjective | src/lib/mock-auth.ts:52 | different counters render as different ids |

## Left out

- Reading and writing `localStorage`, the JSON text of the stored lists, and the
  `try`/`catch` around them: stores are values, and a failed read is an empty
  list.
- The API branches and fallbacks of the hybrid service (`USE_API`, lines 5 and
  63-196): they call a remote API not in this model. Only the local-storage
  branches and the legacy exports are modelled.
- The `get`/`save` wrappers of both services: they move lists in and out of
  storage.
- `generateId` and the clocks: ids and times are parameters, so their
  randomness and resolution are not modelled.
- Time zones and daylight-saving time. A date is a local day number and an
  hour, and `toISOString().split('T')[0]` of a local midnight is taken to name
  that day.
- Invalid session dates, skipped by the `isNaN` check in stats-service.ts lines
  60-64: every session has a valid date here.
- Password hashing (`bcrypt`), JWT signing and verification, the SQL queries and
  the Dropbox HTTP call: they are oracles passed as parameters.
- Only the outcome of the Dropbox request is modelled. Its `Authorization` and
  `Dropbox-API-Arg` headers are left out.
- React state, effects, toasts, timers, navigation and rendering. Only the
  values shown and the state transitions are modelled.
- `toFixed(1)` rendering of the size estimate: the estimate is kept as an exact
  number.
- `exportAsJSON`, `downloadAsFile` and `importFromFile`: they serialize and move
  text. The model starts from the parsed JSON value.
- Case mapping covers ASCII letters only. String lengths count code points
  rather than UTF-16 units.
- `parseInt` covers decimal input only. A `0x` prefix is read as the digit 0
  followed by text.
- `parseInt` of the stats route's `SUM` and `COUNT` strings: the query results
  arrive as numbers.
- A mantra title that is not a string in a merge warning: the warning keeps the
  raw JSON value.
- The register route's body fields are strings when present. JavaScript would
  not reject other values there: `test` converts its argument to a string (so
  `["a@b.co"]` passes the e-mail check), and a number's `.length` is
  `undefined`, which skips the length check, so such a password reaches
  `bcrypt.hash` and ends in the 500 branch.
- Default arguments: `getMostPracticedMantras(limit = 5)` and
  `importFromJSON(..., mergeMode = 'merge')` take their `limit` and mode as
  explicit parameters of `StatsService.MostPracticed` and
  `DataExport.ImportFromJson`; the defaults 5 and merge are the caller's choice.
- MantraService.TotalSessions: its contract states only the zero case. How a
  logged session changes the total is `MantraService.AddSessionTotal`.
- EditDialog.ParseIntRoundTrip: the round trip is stated for natural numbers.
  Negative numbers are covered only through `ParseIntOfNegatedDigits`.
- The stats route answers a token that fails verification with 500, while the
  Dropbox route answers 401 (`StatsRoute.ErrorStatusExamples`,
  `DropboxUpload.AuthFailuresAre401`). The model keeps each route's behaviour
  as written.
