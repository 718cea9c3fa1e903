# Risk engine core in Dafny

This project models the core of `src/risk_engine.py`, a tool that scores
how risky each recently changed file of a repository is and raises an
alert when a file stays critical for two runs in a row. The model covers
these parts of that core:

- **Aggregation** (`churn.dfy`, modules `Churn` and `ChurnFacts`). This is
  `file_churns`. Each included file change adds its added and removed lines
  to the file's churn, one to its change count, and its commit's author to
  the file's author set. A commit without a linked account is credited to
  `"unknown"`. A path that contains any of the exclusion fragments is
  skipped. The method is a nested loop over the three dictionaries, kept as
  maps. It also keeps the order in which paths are first seen, because each
  dictionary iterates in that order. The method is proved against
  specification functions over the sequence of included entries.
- **Global aggregates** (`aggregates.dfy`, module `Aggregates`). The mean
  churn enters only through the comparison "churn above the mean". The
  model states that comparison without division, as `churn * n > total`,
  and proves it equal to the comparison with the exact mean.
  The top-20% set is the first `max(1, n // 5)` files of a stable sort by
  descending churn.
- **Scoring** (`scoring.dfy`, module `Scoring`). This is `score_file`: six
  rules applied in a fixed order, the band chain, and `_24h_spike`.
- **History** (`history.dfy`, module `HistoryStore`). This is the `hist`
  table as an in-memory class. A row is keyed by (file, timestamp):
  - `Record` is `insert or replace`;
  - `Streak` is the `order by ts desc limit 2` query followed by the count.
- **The analysis run** (`engine.dfy`, module `Engine`). This is `main` from
  the aggregation to the alert list. The main loop scores each file in
  first-seen order, records its row, and raises an alert when the file is
  critical with a streak of 2.
- **Shared pieces.** `text.dfy` is the substring test behind Python's
  `x in fn`. `sorting.dfy` is a stable descending insertion sort, which
  serves both `sorted(..., reverse=True)` and `order by ... desc`.

Points of the code that the model keeps as written:

- A path is core when a core fragment occurs anywhere in it. Line 55 is a
  substring test, not a prefix test.
- The 24-hour spike (lines 63-65) counts the file changes that name the
  file across the commits of the window. It does not count distinct
  commits.
- The window of the spike check is the commits whose author date is after
  the cutoff (line 94). `Engine.Window` filters the same commits that the
  aggregation reads.
- The six rules (lines 44-59) can add up to 7 points, one more than
  `MAX_SCORE` (line 12). `Scoring.AllRulesExceedMax` shows a file that
  reaches 7. It needs the spike rule to fire. As written, the spike check
  reads the file lists of the commit listing's entries. If those entries
  carry no file list, as the separate detail lookup at lines 32-33
  suggests, no file scores above 6 (see "Findings").
- The history is not append-only. Line 99 is `insert or replace`, so a row
  with an existing (file, timestamp) key replaces the old row.

## Model

| member | source | states |
|---|---|---|
| Text.ContainsIff | src/risk_engine.py:35 | the substring scan succeeds exactly when the fragment occurs at some position of the path |
| Text.ContainsAnyIff | src/risk_engine.py:35 | `any(x in fn for x in pats)` holds exactly when one of the fragments occurs in the path |
| Text.ContainsAt | src/risk_engine.py:55 | a path in which a fragment occurs at a given position contains it |
| Sorting.Take | src/risk_engine.py:89 | `s[:k]` has `min(k, len(s))` elements and is a prefix of `s` |
| Sorting.InsertDesc | src/risk_engine.py:89 | inserting into a descending list adds exactly that element and keeps the list descending |
| Sorting.ConsDescending | src/risk_engine.py:89 | a head whose key bounds the first key of a descending list keeps it descending |
| Sorting.SortDesc | src/risk_engine.py:89 | the sort is a permutation of its input, in non-increasing key order; its stability is `Sorting.SortStable` |
| Sorting.WithKeyMembers | src/risk_engine.py:89 | the elements selected by a key value are exactly the elements with that key |
| Sorting.WithKeyAppend | src/risk_engine.py:89 | selecting by key distributes over concatenation |
| Sorting.InsertStable | src/risk_engine.py:89 | inserting an element puts it after every element that ties with it |
| Sorting.SortStable | src/risk_engine.py:89 | the sort is stable: for every key value, the elements with that key come out in their input order |
| Sorting.WithKeyDistinct | src/risk_engine.py:89 | selecting by key from a repeat-free list leaves it repeat-free |
| Sorting.EarlierInPrefix | src/risk_engine.py:89 | in a repeat-free list, any prefix holding an element of the back part holds every element of the front part |
| Sorting.TieInPrefix | src/risk_engine.py:89 | of two tied elements, a prefix of the sort holds the later one only if it holds the earlier one |
| Sorting.TieKept | src/risk_engine.py:89 | the same for any list that keeps the tied elements in input order |
| Sorting.TakeOutranks | src/risk_engine.py:89 | nothing left out of a prefix of the sort outranks an element of the prefix |
| Sorting.PermutationPrefixOutranks | src/risk_engine.py:89 | the same for any descending permutation of the input |
| Sorting.SortNewest | src/risk_engine.py:75 | an element whose key exceeds every other key sorts first, ahead of the sort of the rest |
| Sorting.PrefixDominates | src/risk_engine.py:89 | in a descending list nothing after position k outranks anything before it |
| Sorting.PermutationDistinct | src/risk_engine.py:89 | sorting a repeat-free list of files keeps it repeat-free |
| Sorting.DistinctCard | src/risk_engine.py:89 | a repeat-free list has as many elements as its set |
| Churn.FileChurns | src/risk_engine.py:28-39 | the churn, count and author maps and the first-seen order are those of the included entries of all commits |
| Churn.AuthorName | src/risk_engine.py:38 | the commit's login, or "unknown" without a linked account; `ChurnFacts.AggregatedAuthors` and `ChurnFacts.UnknownAuthor` state its effect |
| Churn.Lines | src/risk_engine.py:36 | additions plus deletions, a missing count read as 0; `ChurnFacts.AggregatedTotals` sums it per path |
| Churn.Excluded | src/risk_engine.py:35 | a path is skipped when one of the exclusion fragments occurs in it; `ChurnFacts.ExclusionFilter` and `ChurnFacts.AggregatedPaths` state the consequence |
| Churn.AddCommit | src/risk_engine.py:33-38 | folding one commit's files extends the tallies by exactly that commit's included entries |
| Churn.AddEntry | src/risk_engine.py:36-38 | the three dictionary updates of one file change extend the tallies by its one entry |
| Churn.StepTallied | src/risk_engine.py:36-38 | the updated maps and order are the tallies of the entries plus the new one |
| Churn.StepChurn | src/risk_engine.py:36 | one more entry adds its lines to its path's churn, from 0 for a new path, and changes no other path |
| Churn.StepCount | src/risk_engine.py:37 | one more entry adds one to its path's count, from 0 for a new path, and changes no other path |
| Churn.StepAuthors | src/risk_engine.py:38 | one more entry adds its author to its path's set, from the empty set for a new path, and changes no other path |
| Churn.StepOrder | src/risk_engine.py:29 | a new path goes to the end of the iteration order and a known one leaves it unchanged |
| Churn.FirstSeenElems | src/risk_engine.py:97 | the iteration order lists every aggregated path exactly once |
| Churn.AbsentPath | src/risk_engine.py:29 | a path no entry carries reads as churn 0, count 0 and no authors |
| ChurnFacts.IncludedMembership | src/risk_engine.py:33-35 | a commit contributes an entry exactly for each of its files whose path is not excluded |
| ChurnFacts.EntriesCommit | src/risk_engine.py:30-33 | every entry comes from one of the commits |
| ChurnFacts.EntriesMembership | src/risk_engine.py:30-38 | the entries are exactly the non-excluded file changes of all commits, each with its lines and its commit's author |
| ChurnFacts.AggregatedPaths | src/risk_engine.py:33-36 | a path is a key exactly when it is not excluded and some commit changed it |
| ChurnFacts.AggregatedAuthors | src/risk_engine.py:38 | a path's author set holds exactly the authors, "unknown" for none, of the commits that changed it |
| ChurnFacts.UnknownAuthor | src/risk_engine.py:38 | a commit without a linked account puts "unknown" in the author set of each file it touched |
| ChurnFacts.IncludedTotals | src/risk_engine.py:33-37 | within one commit, a non-excluded path's count is its number of file changes and its churn their added plus removed lines |
| ChurnFacts.AggregatedTotals | src/risk_engine.py:36-37 | over all commits, a non-excluded path's count is the number of its file changes and its churn the sum of their added and removed lines |
| ChurnFacts.AggregateShape | src/risk_engine.py:29-39 | the three maps share one key set, the order lists it once, no key is excluded and every key has count at least 1 |
| ChurnFacts.ChurnMonotone | src/risk_engine.py:36-37 | another commit never lowers a path's churn or count |
| ChurnFacts.ExclusionFilter | src/risk_engine.py:11 | a path containing "test" or ".md" is in none of the three maps |
| Aggregates.AboveMeanIsAboveAverage | src/risk_engine.py:88 | `churn * n > total` holds exactly when churn exceeds `total / n` computed exactly |
| Aggregates.ChurnAt | src/risk_engine.py:29 | the `defaultdict(int)` read: the churn of a key, 0 for an absent path; `Engine.ChurnAtMap` ties it to the entries |
| Aggregates.Total | src/risk_engine.py:88 | the sum of the churns of the listed files; `Engine.TotalIsAllLines` relates it to the entries |
| Aggregates.TotalAtLeastEach | src/risk_engine.py:88 | the total is at least the churn of each listed file |
| Aggregates.SumAtLeast | src/risk_engine.py:88 | when each file's churn times n is at least t, the total times n is at least t per file |
| Aggregates.SomeFileNotAboveMean | src/risk_engine.py:45 | some file is not above the mean of line 88 |
| Aggregates.AboveMeanNeedsTwo | src/risk_engine.py:45 | a file above the mean is never the only file |
| Aggregates.AboveMean | src/risk_engine.py:45 | "churn above the mean" without division, the mean being the total of line 88 over the number of files; `Aggregates.AboveMeanIsAboveAverage` proves it exact |
| Aggregates.Quota | src/risk_engine.py:89 | `max(1, n // 5)` is at least 1, at most n for n >= 1, and at most n / 5 unless it is 1 |
| Aggregates.RankedByChurn | src/risk_engine.py:89 | the ranking is a permutation of the files in non-increasing churn order |
| Aggregates.Top20 | src/risk_engine.py:89 | the top set holds only aggregated files, and no file outside it has more churn than a file inside it |
| Aggregates.PrefixOfRanking | src/risk_engine.py:89 | any prefix of the ranking is drawn from the files and outranks every file outside it |
| Aggregates.PrefixOutranks | src/risk_engine.py:89 | no file left out of a prefix of the ranking has more churn than a file in it |
| Aggregates.TiesKeepOrder | src/risk_engine.py:89 | of two files with equal churn, the later one in first-seen order is in the top set only if the earlier one is |
| Aggregates.Top20Size | src/risk_engine.py:89 | for n >= 1 distinct files the top set has exactly `max(1, n // 5)` members |
| Aggregates.Top20Small | src/risk_engine.py:89 | with one to four files the top set is the single file ranked first |
| Aggregates.MaxChurnInTop | src/risk_engine.py:89 | a file with more churn than every other file is in the top set |
| Scoring.BandOf | src/risk_engine.py:60 | the band is normal exactly for s <= 1, watch for 2..3, high for 4 and critical for s >= 5 |
| Scoring.BandMonotone | src/risk_engine.py:60 | a higher score never gets a lower band |
| Scoring.Spike | src/risk_engine.py:63-65 | two or more file changes named by the file among the window's commits; `Scoring.SpikeIffRepeated` characterises it |
| Scoring.SpikeIffRepeated | src/risk_engine.py:63-65 | a spike holds exactly when the file's path occurs at least twice among the 24-hour commits' file lists |
| Scoring.SpikeMonotone | src/risk_engine.py:63-65 | more commits in the window never remove a spike |
| Scoring.NamedMultiplicity | src/risk_engine.py:64 | the file changes named by a path are as many as the occurrences of the path |
| Scoring.ScoreFile | src/risk_engine.py:42-61 | the result is for the given file and its band is the band of its score |
| Scoring.Fires | src/risk_engine.py:45-58 | the six rule conditions; `Scoring.ScoreMeaning` proves a reason is listed exactly when its condition holds |
| Scoring.RunMembers | src/risk_engine.py:43-59 | applying the rules lists exactly the rules that fire |
| Scoring.Apply | src/risk_engine.py:45-59 | one `s += …; reasons.append(…)` step; its effect is stated by `Scoring.RunMembers`, `Scoring.RunPoints` and `Scoring.RunIncreasing` |
| Scoring.Run | src/risk_engine.py:43-59 | the rule chain from zero points and no reasons, characterised by `Scoring.RunMembers`, `Scoring.RunIncreasing`, `Scoring.RunPoints` and `Scoring.RunBelow` |
| Scoring.RunIncreasing | src/risk_engine.py:43-59 | applying the rules in table order lists the fired reasons in table order |
| Scoring.RunPoints | src/risk_engine.py:43-59 | the score is the sum of the points of the listed reasons |
| Scoring.RunAllFire | src/risk_engine.py:43-59 | when every rule fires the whole table is listed |
| Scoring.PointsCount | src/risk_engine.py:45-59 | the points of reasons without repeats are their number plus one for "High churn" |
| Scoring.ScoreMeaning | src/risk_engine.py:42-61 | a reason is listed iff its rule fires, reasons are in table order, and the score is their points, at most 7 |
| Scoring.HighChurnRule | src/risk_engine.py:45-46 | "High churn" is listed exactly when the churn exceeds the exact mean, and then adds 2 points |
| Scoring.TablePoints | src/risk_engine.py:44-59 | the rule table is in order and its points add up to 7 |
| Scoring.RunBelow | src/risk_engine.py:43-59 | a run scores at most the points of its table |
| Scoring.RunMissing | src/risk_engine.py:43-59 | a table rule that does not fire takes its points off that bound |
| Scoring.NoSpikeAtMost | src/risk_engine.py:52-53 | without a spike a file scores at most `MAX_SCORE` |
| Scoring.AllFiredScoresSeven | src/risk_engine.py:12 | when all six rules fire, all six reasons are listed and the score is 7, above `MAX_SCORE`, critical |
| Scoring.AllRulesExceedMax | src/risk_engine.py:42-61 | a core file above the mean, in the top set, active, spiking and with one author scores 7 |
| Scoring.ExampleTotal | src/risk_engine.py:88 | the churns 50, 40, 10, 5, 100 total 205 |
| Scoring.ExampleTop | src/risk_engine.py:89 | of five files the one with churn 100 is the top-20% file |
| Scoring.EndToEndExample | src/risk_engine.py:42-61 | that file, with 6 changes and one author, gets "High churn", "Top 20% churn", "Active (>5 commits)", "Single author": 5, critical |
| Scoring.FiredReasons | src/risk_engine.py:42-59 | any table-ordered list of exactly the fired rules is the reason list |
| Scoring.SameIncreasing | src/risk_engine.py:43-59 | two table-ordered reason lists with the same members are equal |
| HistoryStore.FileRowsMembers | src/risk_engine.py:75 | `where file = ?` keeps exactly the history rows of that file |
| HistoryStore.WithoutKeyMembers | src/risk_engine.py:99 | dropping a key keeps exactly the rows with another key |
| HistoryStore.FileRows | src/risk_engine.py:75 | the rows of one file, in table order, no more than the table holds; `HistoryStore.FileRowsMembers` characterises them |
| HistoryStore.WithoutKey | src/risk_engine.py:99 | the table without one key, no longer than before; `HistoryStore.WithoutKeyMembers` characterises it |
| HistoryStore.WithoutAbsentKey | src/risk_engine.py:99 | dropping a key that is not there leaves the history as it was |
| HistoryStore.Recorded | src/risk_engine.py:99-100 | after `insert or replace` the new row is present and the history grew by at most one row |
| HistoryStore.UniqueAppend | src/risk_engine.py:71 | appending a row whose key is absent keeps the primary key unique |
| HistoryStore.WithoutKeyUnique | src/risk_engine.py:71 | dropping a key keeps the primary key unique |
| HistoryStore.History.constructor | src/risk_engine.py:68-72 | a new table is empty and its key is unique |
| HistoryStore.History.Record | src/risk_engine.py:99-100 | the row replaces any row with its (file, ts) key and the key stays unique |
| HistoryStore.History.Streak | src/risk_engine.py:74-77 | the query returns the streak of the file's two newest rows |
| HistoryStore.ByTime | src/risk_engine.py:75 | `order by ts desc` is a permutation of the rows |
| HistoryStore.ByTimeDescending | src/risk_engine.py:75 | `order by ts desc` puts newer rows before older ones |
| HistoryStore.Count | src/risk_engine.py:77 | `list.count` is at most the length |
| HistoryStore.CountAll | src/risk_engine.py:77 | the count is the length exactly when every row has the band |
| HistoryStore.CountNone | src/risk_engine.py:77 | the count is 0 exactly when no row has the band |
| HistoryStore.CountPair | src/risk_engine.py:77 | the count over two rows is the number of them with the band |
| HistoryStore.StreakOf | src/risk_engine.py:74-77 | the streak is at most 2, and 0 when the file has fewer than two rows |
| HistoryStore.StreakMeaning | src/risk_engine.py:74-77 | the streak is 2 iff the file has two rows and both newest carry the band, and 0 iff it has fewer or neither does |
| HistoryStore.LastTwoLength | src/risk_engine.py:75-76 | `limit 2` reads two rows when the file has two or more, otherwise all of them |
| HistoryStore.LastTwo | src/risk_engine.py:75-76 | the rows the query reads, at most two |
| HistoryStore.LastTwoOfFile | src/risk_engine.py:75 | the rows read are history rows of the file |
| HistoryStore.LastTwoNewest | src/risk_engine.py:75 | the rows read come newest first and no other row of the file is newer than either |
| HistoryStore.FreshKeyAppends | src/risk_engine.py:99-100 | recording a row whose key is absent appends it |
| HistoryStore.OtherFilesUnchanged | src/risk_engine.py:99-100 | recording a row of one file leaves every other file's rows unchanged |
| HistoryStore.FileRowsAppend | src/risk_engine.py:75 | filtering by file distributes over appending a row |
| HistoryStore.WithoutKeyOtherFile | src/risk_engine.py:99 | dropping one file's key leaves other files' rows unchanged |
| HistoryStore.RecordNewest | src/risk_engine.py:99-100 | after a file's newest row is recorded, the streak reads that row and the file's previous newest row |
| Engine.ScoreEach | src/risk_engine.py:97-98 | one score per file, in the files' order, and each is `Scoring.ScoreFile` of its file with the run's globals |
| Engine.Window | src/risk_engine.py:93-94 | the window holds exactly the commits dated after the cutoff and no more commits than the input |
| Engine.WindowAppend | src/risk_engine.py:94 | filtering by date distributes over concatenation |
| Engine.WindowPathsStep | src/risk_engine.py:94 | the paths of the window grow by the last commit's paths exactly when that commit is recent |
| Engine.RecentTouch | src/risk_engine.py:94 | a recent commit that changes a file puts a change of it into the window |
| Engine.RecentSpike | src/risk_engine.py:63-65 | two recent commits that both change a file make a spike of it |
| Engine.Listed | src/risk_engine.py:23-26 | listing entries keep their dates and read as having no files |
| Engine.ListedNamesNothing | src/risk_engine.py:64 | listing entries name no file |
| Engine.ListedNeverSpikes | src/risk_engine.py:63-65 | as written, the spike check over listing entries never fires and no file scores above `MAX_SCORE` |
| Engine.ScoreAll | src/risk_engine.py:84-98 | one score per aggregated file, in first-seen order, with the spike rule over the commits after the cutoff |
| Engine.RowOf | src/risk_engine.py:99-100 | the row carries the score's file, score and band and the run's timestamp |
| Engine.Analyze | src/risk_engine.py:83-103 | the scores, the new history and the alerts are those of `Engine.ScoreAll`, `Engine.RecordAll` and `Engine.AlertsOf`, and the key stays unique; with no aggregated file nothing is scored or written |
| Engine.ScoreAndRecord | src/risk_engine.py:96-103 | the loop's scores, history and alerts are those of scoring, recording and checking each file in turn |
| Engine.AlertFor | src/risk_engine.py:102-103 | the alert is raised exactly for a critical score whose streak, after its row is recorded, is at least 2 |
| Engine.ScoreEachStep | src/risk_engine.py:97-98 | one more file extends the scores by its score |
| Engine.RunStep | src/risk_engine.py:99-103 | one more score extends the history by its row and the alerts by its alert, if any |
| Engine.RecordAll | src/risk_engine.py:99-100 | the history after the run's rows are recorded in turn, at most one row longer per score |
| Engine.AlertsOf | src/risk_engine.py:102-103 | the alerts of the run, at most one per score |
| Engine.ScoreAllFiles | src/risk_engine.py:97 | every aggregated file is scored and no file is scored twice |
| Engine.NotAllHighChurn | src/risk_engine.py:45-46 | in a run with a scored file, some file's reasons lack "High churn" |
| Engine.ScoreEachFiles | src/risk_engine.py:97 | scoring a repeat-free list scores each of its files exactly once |
| Engine.DistinctFilesInit | src/risk_engine.py:97 | the files scored before the last one do not include it |
| Engine.RecordAllAppends | src/risk_engine.py:96-101 | with a fresh timestamp the run replaces nothing and appends one row per file, in order |
| Engine.FreshTimestamp | src/risk_engine.py:99-100 | a file not yet recorded in the run has no row with the run's timestamp |
| Engine.RowsOfMembers | src/risk_engine.py:99-100 | every row the run writes is the row of one of its scores |
| Engine.RecordAllOther | src/risk_engine.py:99-100 | recording other files leaves a file's rows unchanged |
| Engine.StreakAfterNewest | src/risk_engine.py:102 | just after a newer row is recorded, the critical streak is 2 iff that row and the previous newest are critical |
| Engine.AlertStep | src/risk_engine.py:102-103 | the last scored file alerts iff it is critical now and its previous newest row is critical |
| Engine.CriticalInStep | src/risk_engine.py:102 | a critical score of a file is an earlier one or the last one |
| Engine.AlertRule | src/risk_engine.py:102-103 | with a fresh timestamp a file alerts iff it scores critical now and its newest earlier row is critical |
| Engine.AlertRuleFor | src/risk_engine.py:102-103 | the alert rule for one file |
| Engine.TotalIsAllLines | src/risk_engine.py:88 | `sum(churn.values())` is the sum of the lines of all included entries |
| Engine.ChurnAtMap | src/risk_engine.py:88 | a path's churn, absent paths as 0, is its total over the entries |
| Engine.TotalStep | src/risk_engine.py:88 | over repeat-free files, one more entry adds its lines to the sum exactly when its path is listed |

## Left out

- The service calls of `commits_since`, `_api` and the per-commit detail lookup (HTTP, JSON, status codes) are not modelled. Commits are given with their author login, author date and file list already fetched.
- SQLite is replaced by the in-memory `History` class: `init_db`, `commit` and the database file are not modelled.
- The clock is not modelled. `now` and the 24-hour `cutoff` are parameters of `Engine.Analyze`.
- Engine.Window: commit dates and the cutoff are numbers. The comparison of ISO date strings in line 94 is not modelled, nor the `Z` suffix that the service's dates carry and `cutoff_24h` lacks.
- Engine.Analyze: the spike rule reads the detailed file lists of the commits after the cutoff, the evidently intended behaviour, not the file lists of the listing entries that the code reads; "Findings" has both.
- `Engine.Analyze`: one timestamp serves the whole run, where the source reads the clock once per row. Each file gets one row per run, so the keys of one run never collide either way.
- Engine.AlertRule: the rule is proved under the hypothesis that the run's timestamp is newer than every stored row. A clock that goes backwards can make the query read an older row first, and that case is not analysed.
- Engine.RecordAllAppends: holds only under the same fresh-timestamp hypothesis.
- The float mean `sum(churn.values()) / len(churn)` is replaced by the exact comparison `churn * n > total`. `Aggregates.AboveMeanIsAboveAverage` proves it equal to the comparison with the exact mean. Floating-point rounding is not modelled.
- HTML rendering (`_render_html`), writing the report, the console messages and `exit(0)` are not modelled. An empty aggregate returns no scores and no alerts and writes nothing.
- `demo.py` and `cli.py` are not part of this model.
- `Band.Name` and `Reason.Text` give the strings the source stores and shows; nothing is proved about them beyond their definitions.

## Findings

| source | as written | input that shows it | evidently intended | confidence | as-written member | corrected member |
|---|---|---|---|---|---|---|
| src/risk_engine.py:63-65 | `_24h_spike` reads the `files` of the entries of the commit listing (lines 23-26, 94), with a default of none; the file lists come only from the per-commit detail lookup (lines 32-33) | two commits from the last 24 hours that both change `src/auth/login.py`: their listing entries carry no file list, so the spike is false and the score stays at most 6 | the spike counts the changes of the file in the detailed file lists of the commits after the cutoff | medium; not executed, and it rests on the listing entries carrying no file list | Engine.ListedNeverSpikes | Engine.RecentSpike |
