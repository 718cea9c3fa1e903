/**
 * The analysis run of `main` in src/risk_engine.py: aggregate the commits,
 * compute the mean and the top-20% set, then for each file in first-seen
 * order score it, record its row in the history and raise an alert when it
 * is critical for the second run in a row.
 */
module Engine {
  import opened Sorting
  import opened Churn
  import opened Aggregates
  import opened Scoring
  import opened HistoryStore

  /** The score of each of `files`, in order: the body of the main loop's `score_file` calls. */
  function ScoreEach(files: seq<string>, churn: map<string, nat>, cnt: map<string, nat>, authors: map<string, set<string>>,
                     total: nat, n: nat, top20: set<string>, commits24h: seq<Commit>): (results: seq<ScoreResult>)
    ensures |results| == |files|
    ensures forall k | 0 <= k < |results| :: results[k].file == files[k]
    ensures forall k | 0 <= k < |results| :: results[k] == ScoreFile(files[k], churn, cnt, authors, total, n, top20, commits24h)
  {
    if files == [] then []
    else
      ScoreEach(files[..|files| - 1], churn, cnt, authors, total, n, top20, commits24h)
      + [ScoreFile(files[|files| - 1], churn, cnt, authors, total, n, top20, commits24h)]
  }

  /** The commits whose author date is after `cutoff`, in order: the pre-filter of the 24-hour spike check. */
  function Window(commits: seq<Commit>, cutoff: nat): (w: seq<Commit>)
    ensures |w| <= |commits|
    ensures forall c :: c in w <==> c in commits && c.date > cutoff
  {
    if commits == [] then []
    else
      var init, last := commits[..|commits| - 1], commits[|commits| - 1];
      assert commits == init + [last];
      Window(init, cutoff) + (if last.date > cutoff then [last] else [])
  }

  /** Filtering by date distributes over concatenation. */
  lemma {:induction false} WindowAppend(a: seq<Commit>, b: seq<Commit>, cutoff: nat)
    ensures Window(a + b, cutoff) == Window(a, cutoff) + Window(b, cutoff)
  {
    if b == [] {
      assert a + b == a;
    } else {
      var init, last := b[..|b| - 1], b[|b| - 1];
      assert (a + b)[..|a + b| - 1] == a + init && (a + b)[|a + b| - 1] == last;
      WindowAppend(a, init, cutoff);
    }
  }

  /** The paths of the window grow by the last commit's paths when that commit is recent. */
  lemma WindowPathsStep(commits: seq<Commit>, cutoff: nat)
    requires commits != []
    ensures var last := commits[|commits| - 1];
            AllPaths(Window(commits, cutoff))
            == AllPaths(Window(commits[..|commits| - 1], cutoff)) + (if last.date > cutoff then PathsIn(last.files) else [])
  {
    var init, last := commits[..|commits| - 1], commits[|commits| - 1];
    var w := Window(init, cutoff);
    if last.date > cutoff {
      assert Window(commits, cutoff) == w + [last];
      assert (w + [last])[..|w|] == w;
    } else {
      assert Window(commits, cutoff) == w;
    }
  }

  /** A recent commit that touches `fn` puts at least one change of `fn` into the window. */
  lemma {:induction false} RecentTouch(fn: string, commits: seq<Commit>, cutoff: nat, i: nat)
    requires i < |commits| && commits[i].date > cutoff && fn in PathsIn(commits[i].files)
    ensures multiset(AllPaths(Window(commits, cutoff)))[fn] >= 1
  {
    var init, last := commits[..|commits| - 1], commits[|commits| - 1];
    WindowPathsStep(commits, cutoff);
    var before := AllPaths(Window(init, cutoff));
    var added := if last.date > cutoff then PathsIn(last.files) else [];
    assert multiset(before + added) == multiset(before) + multiset(added);
    if i == |commits| - 1 {
      assert fn in multiset(added);
    } else {
      assert init[i] == commits[i];
      RecentTouch(fn, init, cutoff, i);
    }
  }

  /** Two commits after the cutoff that each touch `fn` make a spike of `fn`. */
  lemma RecentSpike(fn: string, commits: seq<Commit>, cutoff: nat, i: nat, j: nat)
    requires i < j < |commits|
    requires commits[i].date > cutoff && fn in PathsIn(commits[i].files)
    requires commits[j].date > cutoff && fn in PathsIn(commits[j].files)
    ensures Spike(fn, Window(commits, cutoff))
  {
    var a, b := commits[..j], commits[j..];
    assert commits == a + b;
    assert a[i] == commits[i] && b[0] == commits[j];
    RecentTouch(fn, a, cutoff, i);
    RecentTouch(fn, b, cutoff, 0);
    WindowAppend(a, b, cutoff);
    AllPathsAppend(Window(a, cutoff), Window(b, cutoff));
    SpikeIffRepeated(fn, Window(commits, cutoff));
  }

  /**
   * A commit as the commit listing returns it: the listing carries no file
   * list, so reading its files with a default of none reads none.
   */
  function Listed(cs: seq<Commit>): (r: seq<Commit>)
    ensures |r| == |cs|
    ensures forall k | 0 <= k < |r| :: r[k].files == [] && r[k].date == cs[k].date
  {
    if cs == [] then [] else Listed(cs[..|cs| - 1]) + [cs[|cs| - 1].(files := [])]
  }

  /** Listing entries name no file. */
  lemma {:induction false} ListedNamesNothing(fn: string, cs: seq<Commit>)
    ensures Named(fn, Listed(cs)) == []
  {
    if cs != [] {
      var init := cs[..|cs| - 1];
      ListedNamesNothing(fn, init);
      var r := Listed(cs);
      assert r[..|r| - 1] == Listed(init);
    }
  }

  /**
   * The spike check as written reads the files of the listing entries: it
   * never fires, and no file can score above `MAX_SCORE`.
   */
  lemma ListedNeverSpikes(fn: string, churn: map<string, nat>, cnt: map<string, nat>, authors: map<string, set<string>>,
                          total: nat, n: nat, top20: set<string>, commits: seq<Commit>, cutoff: nat)
    ensures !Spike(fn, Listed(Window(commits, cutoff)))
    ensures ScoreFile(fn, churn, cnt, authors, total, n, top20, Listed(Window(commits, cutoff))).score <= MAX_SCORE
  {
    ListedNamesNothing(fn, Window(commits, cutoff));
    NoSpikeAtMost(fn, churn, cnt, authors, total, n, top20, Listed(Window(commits, cutoff)));
  }

  /**
   * The scores of every file the commits touched, in the order the files
   * were first seen, with the spike rule over the commits after `cutoff`.
   */
  function ScoreAll(commits: seq<Commit>, cutoff: nat): (results: seq<ScoreResult>)
    ensures |results| == |FirstSeen(Entries(commits))|
    ensures forall k | 0 <= k < |results| :: results[k].file == FirstSeen(Entries(commits))[k]
  {
    var es := Entries(commits);
    var order := FirstSeen(es);
    var churn := ChurnMap(es);
    ScoreEach(order, churn, CountMap(es), AuthorMap(es), Total(order, churn), |order|, Top20(order, churn), Window(commits, cutoff))
  }

  /** In every run with a scored file, some file does not get "High churn": not every file is above the mean. */
  lemma NotAllHighChurn(commits: seq<Commit>, cutoff: nat)
    requires ScoreAll(commits, cutoff) != []
    ensures exists k | 0 <= k < |ScoreAll(commits, cutoff)| :: HighChurn !in ScoreAll(commits, cutoff)[k].reasons
  {
    var es := Entries(commits);
    var order := FirstSeen(es);
    var churn := ChurnMap(es);
    var results := ScoreAll(commits, cutoff);
    SomeFileNotAboveMean(order, churn);
    var k :| 0 <= k < |order| && !AboveMean(ChurnAt(churn, order[k]), Total(order, churn), |order|);
    var sc := ScoreFile(order[k], churn, CountMap(es), AuthorMap(es), Total(order, churn), |order|, Top20(order, churn), Window(commits, cutoff));
    ScoreMeaning(order[k], churn, CountMap(es), AuthorMap(es), Total(order, churn), |order|, Top20(order, churn), Window(commits, cutoff));
    assert results[k] == sc;
  }

  /** The history row of a score at time `now`. */
  function RowOf(sc: ScoreResult, now: nat): (r: Row)
    ensures r.file == sc.file && r.score == sc.score && r.band == sc.band && r.ts == now
  {
    Row(sc.file, sc.score, sc.band, now)
  }

  /** The history after the rows of `results` are recorded one after another. */
  function RecordAll(rows: seq<Row>, results: seq<ScoreResult>, now: nat): (after: seq<Row>)
    ensures |after| <= |rows| + |results|
  {
    if results == [] then rows
    else Recorded(RecordAll(rows, results[..|results| - 1], now), RowOf(results[|results| - 1], now))
  }

  /** The alerts of a run: a critical file whose streak of critical rows, just after its own row is recorded, is 2. */
  function AlertsOf(rows: seq<Row>, results: seq<ScoreResult>, now: nat): (alerts: seq<string>)
    ensures |alerts| <= |results|
  {
    if results == [] then []
    else
      var last := results[|results| - 1];
      AlertsOf(rows, results[..|results| - 1], now)
      + (if last.band == Critical && StreakOf(RecordAll(rows, results, now), last.file, Critical) >= 2 then [last.file] else [])
  }

  /**
   * `main` after the commits are fetched: an empty aggregate ends the run
   * with nothing recorded; otherwise every file is scored, its row recorded
   * with timestamp `now`, and its alert raised, in first-seen order.
   */
  method Analyze(h: History, commits: seq<Commit>, cutoff: nat, now: nat)
    returns (results: seq<ScoreResult>, alerts: seq<string>)
    requires h.Valid()
    modifies h
    ensures h.Valid()
    ensures results == ScoreAll(commits, cutoff)
    ensures h.rows == RecordAll(old(h.rows), results, now)
    ensures alerts == AlertsOf(old(h.rows), results, now)
  {
    var churn, cnt, authors, order := FileChurns(commits);
    if |order| == 0 {
      return [], [];
    }
    var total := Total(order, churn);
    var top20 := Top20(order, churn);
    var commits24h := Window(commits, cutoff);
    results, alerts := ScoreAndRecord(h, order, churn, cnt, authors, total, top20, commits24h, now);
  }

  /** The main loop: score each file, record its row, and raise its alert. */
  method ScoreAndRecord(h: History, order: seq<string>, churn: map<string, nat>, cnt: map<string, nat>,
                        authors: map<string, set<string>>, total: nat, top20: set<string>,
                        commits24h: seq<Commit>, now: nat)
    returns (results: seq<ScoreResult>, alerts: seq<string>)
    requires h.Valid()
    modifies h
    ensures h.Valid()
    ensures results == ScoreEach(order, churn, cnt, authors, total, |order|, top20, commits24h)
    ensures h.rows == RecordAll(old(h.rows), results, now)
    ensures alerts == AlertsOf(old(h.rows), results, now)
  {
    results, alerts := [], [];
    for i := 0 to |order|
      invariant h.Valid()
      invariant results == ScoreEach(order[..i], churn, cnt, authors, total, |order|, top20, commits24h)
      invariant h.rows == RecordAll(old(h.rows), results, now)
      invariant alerts == AlertsOf(old(h.rows), results, now)
    {
      var sc := ScoreFile(order[i], churn, cnt, authors, total, |order|, top20, commits24h);
      h.Record(RowOf(sc, now));
      ScoreEachStep(order, i, churn, cnt, authors, total, |order|, top20, commits24h);
      RunStep(old(h.rows), results, sc, now);
      results := results + [sc];
      var alert := AlertFor(h, sc);
      alerts := alerts + alert;
    }
    assert order[..|order|] == order;
  }

  /** The alert check of the main loop, right after the score's row is recorded. */
  method AlertFor(h: History, sc: ScoreResult) returns (alert: seq<string>)
    ensures alert == if sc.band == Critical && StreakOf(h.rows, sc.file, Critical) >= 2 then [sc.file] else []
  {
    alert := [];
    if sc.band == Critical {
      var k := h.Streak(sc.file, Critical);
      if k >= 2 {
        alert := [sc.file];
      }
    }
  }

  /** One more file scored extends the scores by its score. */
  lemma ScoreEachStep(files: seq<string>, i: nat, churn: map<string, nat>, cnt: map<string, nat>,
                      authors: map<string, set<string>>, total: nat, n: nat, top20: set<string>, commits24h: seq<Commit>)
    requires i < |files|
    ensures ScoreEach(files[..i + 1], churn, cnt, authors, total, n, top20, commits24h)
            == ScoreEach(files[..i], churn, cnt, authors, total, n, top20, commits24h)
               + [ScoreFile(files[i], churn, cnt, authors, total, n, top20, commits24h)]
  {
    assert files[..i + 1][..i] == files[..i];
  }

  /** One more score recorded extends the history by its row and the alerts by its alert, if any. */
  lemma RunStep(rows: seq<Row>, results: seq<ScoreResult>, sc: ScoreResult, now: nat)
    ensures RecordAll(rows, results + [sc], now) == Recorded(RecordAll(rows, results, now), RowOf(sc, now))
    ensures AlertsOf(rows, results + [sc], now)
            == AlertsOf(rows, results, now)
               + (if sc.band == Critical && StreakOf(RecordAll(rows, results + [sc], now), sc.file, Critical) >= 2
                  then [sc.file] else [])
  {
    assert (results + [sc])[..|results|] == results;
  }

  /** Every aggregated file is scored exactly once. */
  lemma ScoreAllFiles(commits: seq<Commit>, cutoff: nat)
    ensures var results := ScoreAll(commits, cutoff);
            && DistinctFiles(results)
            && (forall fn :: fn in ChurnMap(Entries(commits)) <==> exists k | 0 <= k < |results| :: results[k].file == fn)
  {
    var es := Entries(commits);
    var order := FirstSeen(es);
    FirstSeenElems(es);
    var churn := ChurnMap(es);
    assert churn.Keys == Elems(order);
    ScoreEachFiles(order, churn, CountMap(es), AuthorMap(es), Total(order, churn), |order|, Top20(order, churn), Window(commits, cutoff));
  }

  /** Scoring a repeat-free file list scores each of its files once. */
  lemma ScoreEachFiles(files: seq<string>, churn: map<string, nat>, cnt: map<string, nat>, authors: map<string, set<string>>,
                       total: nat, n: nat, top20: set<string>, commits24h: seq<Commit>)
    requires Distinct(files)
    ensures var results := ScoreEach(files, churn, cnt, authors, total, n, top20, commits24h);
            && DistinctFiles(results)
            && (forall fn :: fn in Elems(files) <==> exists k | 0 <= k < |results| :: results[k].file == fn)
  {
    var results := ScoreEach(files, churn, cnt, authors, total, n, top20, commits24h);
    forall fn | fn in Elems(files) ensures exists k | 0 <= k < |results| :: results[k].file == fn {
      var k :| 0 <= k < |files| && files[k] == fn;
      assert results[k].file == fn;
    }
  }

  /** The rows of a run's results, in order. */
  function RowsOf(results: seq<ScoreResult>, now: nat): (rs: seq<Row>)
    ensures |rs| == |results|
  {
    if results == [] then [] else RowsOf(results[..|results| - 1], now) + [RowOf(results[|results| - 1], now)]
  }

  /** No file is scored twice in a run. */
  predicate DistinctFiles(results: seq<ScoreResult>) {
    forall i, j | 0 <= i < j < |results| :: results[i].file != results[j].file
  }

  /** Dropping the last score keeps the files distinct, and the last file is not scored before. */
  lemma DistinctFilesInit(results: seq<ScoreResult>)
    requires DistinctFiles(results) && results != []
    ensures DistinctFiles(results[..|results| - 1])
    ensures forall k | 0 <= k < |results| - 1 :: results[k].file != results[|results| - 1].file
  {
    var init := results[..|results| - 1];
    forall i, j | 0 <= i < j < |init| ensures init[i].file != init[j].file {
      assert init[i] == results[i] && init[j] == results[j];
    }
  }

  /**
   * When the run's timestamp is newer than every row in the history and
   * each file is scored once, recording the run replaces nothing: it
   * appends one row per file, in order.
   */
  lemma {:induction false} RecordAllAppends(rows: seq<Row>, results: seq<ScoreResult>, now: nat)
    requires forall x | x in rows :: x.ts < now
    requires DistinctFiles(results)
    ensures RecordAll(rows, results, now) == rows + RowsOf(results, now)
  {
    if results != [] {
      var init, last := results[..|results| - 1], results[|results| - 1];
      DistinctFilesInit(results);
      RecordAllAppends(rows, init, now);
      var before := rows + RowsOf(init, now);
      FreshTimestamp(rows, init, now, last.file);
      FreshKeyAppends(before, RowOf(last, now));
      assert RecordAll(rows, results, now) == Recorded(before, RowOf(last, now));
      assert RowsOf(results, now) == RowsOf(init, now) + [RowOf(last, now)];
    }
  }

  /** The key of a file not yet recorded in the run is absent before its row is recorded. */
  lemma FreshTimestamp(rows: seq<Row>, init: seq<ScoreResult>, now: nat, fn: string)
    requires forall x | x in rows :: x.ts < now
    requires forall k | 0 <= k < |init| :: init[k].file != fn
    ensures !HasKey(rows + RowsOf(init, now), fn, now)
  {
    forall x | x in rows + RowsOf(init, now) ensures !(x.file == fn && x.ts == now) {
      if x !in rows {
        RowsOfMembers(init, now, x);
      }
    }
  }

  /** A row of a run is the row of one of its results. */
  lemma {:induction false} RowsOfMembers(results: seq<ScoreResult>, now: nat, x: Row)
    requires x in RowsOf(results, now)
    ensures exists k | 0 <= k < |results| :: x == RowOf(results[k], now)
  {
    var init := results[..|results| - 1];
    if x != RowOf(results[|results| - 1], now) {
      RowsOfMembers(init, now, x);
      var k :| 0 <= k < |init| && x == RowOf(init[k], now);
      assert results[k] == init[k];
    }
  }

  /** The newest row of the file before the run exists and is critical. */
  predicate WasCritical(rows: seq<Row>, fn: string) {
    var byTime := ByTime(FileRows(rows, fn));
    |byTime| >= 1 && byTime[0].band == Critical
  }

  /** Recording rows of other files leaves a file's rows unchanged. */
  lemma {:induction false} RecordAllOther(rows: seq<Row>, results: seq<ScoreResult>, now: nat, fn: string)
    requires forall k | 0 <= k < |results| :: results[k].file != fn
    ensures FileRows(RecordAll(rows, results, now), fn) == FileRows(rows, fn)
  {
    if results != [] {
      var init := results[..|results| - 1];
      RecordAllOther(rows, init, now, fn);
      OtherFilesUnchanged(RecordAll(rows, init, now), RowOf(results[|results| - 1], now), fn);
    }
  }

  /** Right after a file's newest row is recorded, its critical streak is 2 exactly when that row and the one before it are critical. */
  lemma StreakAfterNewest(rows: seq<Row>, r: Row)
    requires forall x | x in FileRows(rows, r.file) :: x.ts < r.ts
    ensures StreakOf(Recorded(rows, r), r.file, Critical) >= 2 <==> r.band == Critical && WasCritical(rows, r.file)
  {
    RecordNewest(rows, r);
    var byTime := ByTime(FileRows(rows, r.file));
    var lastTwo := LastTwo(Recorded(rows, r), r.file);
    if |byTime| >= 1 {
      assert Take(byTime, 1) == [byTime[0]];
      assert lastTwo == [r, byTime[0]];
      CountPair(r, byTime[0], Critical);
      assert StreakOf(Recorded(rows, r), r.file, Critical) == Count(lastTwo, Critical);
    } else {
      assert |lastTwo| == 1;
      assert StreakOf(Recorded(rows, r), r.file, Critical) == 0;
    }
  }

  /** The file scored last in a run alerts exactly when it is critical now and its newest earlier row is critical. */
  lemma AlertStep(rows: seq<Row>, results: seq<ScoreResult>, now: nat)
    requires forall x | x in rows :: x.ts < now
    requires results != []
    requires forall k | 0 <= k < |results| - 1 :: results[k].file != results[|results| - 1].file
    ensures var last := results[|results| - 1];
            AlertsOf(rows, results, now)
            == AlertsOf(rows, results[..|results| - 1], now)
               + (if last.band == Critical && WasCritical(rows, last.file) then [last.file] else [])
  {
    var init, last := results[..|results| - 1], results[|results| - 1];
    RecordAllOther(rows, init, now, last.file);
    var before := RecordAll(rows, init, now);
    FileRowsMembers(rows, last.file);
    StreakAfterNewest(before, RowOf(last, now));
  }

  /** Some score of the run is a critical score of `fn`. */
  predicate CriticalIn(results: seq<ScoreResult>, fn: string) {
    exists k | 0 <= k < |results| :: results[k].file == fn && results[k].band == Critical
  }

  /** A critical score of `fn` is among the earlier scores or is the last one. */
  lemma CriticalInStep(results: seq<ScoreResult>, fn: string)
    requires results != []
    ensures var last := results[|results| - 1];
            CriticalIn(results, fn)
            <==> CriticalIn(results[..|results| - 1], fn) || (last.file == fn && last.band == Critical)
  {
    var init := results[..|results| - 1];
    if CriticalIn(results, fn) {
      var k :| 0 <= k < |results| && results[k].file == fn && results[k].band == Critical;
      if k < |init| {
        assert init[k] == results[k];
      }
    }
    if CriticalIn(init, fn) {
      var k :| 0 <= k < |init| && init[k].file == fn && init[k].band == Critical;
      assert results[k] == init[k];
    }
  }

  /**
   * The alert rule: when the run's timestamp is newer than every row in the
   * history, a file raises an alert exactly when it scores critical now and
   * its newest row from an earlier run is critical too.
   */
  lemma AlertRule(rows: seq<Row>, results: seq<ScoreResult>, now: nat)
    requires forall x | x in rows :: x.ts < now
    requires DistinctFiles(results)
    ensures forall fn :: fn in AlertsOf(rows, results, now) <==> WasCritical(rows, fn) && CriticalIn(results, fn)
  {
    forall fn ensures fn in AlertsOf(rows, results, now) <==> WasCritical(rows, fn) && CriticalIn(results, fn) {
      AlertRuleFor(rows, results, now, fn);
    }
  }

  /** The alert rule for one file. */
  lemma {:induction false} AlertRuleFor(rows: seq<Row>, results: seq<ScoreResult>, now: nat, fn: string)
    requires forall x | x in rows :: x.ts < now
    requires DistinctFiles(results)
    ensures fn in AlertsOf(rows, results, now) <==> WasCritical(rows, fn) && CriticalIn(results, fn)
  {
    if results != [] {
      var init := results[..|results| - 1];
      DistinctFilesInit(results);
      AlertRuleFor(rows, init, now, fn);
      AlertStep(rows, results, now);
      var last := results[|results| - 1];
      var fired := last.band == Critical && WasCritical(rows, last.file);
      assert fn in AlertsOf(rows, results, now) <==> fn in AlertsOf(rows, init, now) || (fired && fn == last.file);
      CriticalInStep(results, fn);
    }
  }

  /** The sum of the line changes of all entries. */
  function AllLines(es: seq<Entry>): nat {
    if es == [] then 0 else AllLines(es[..|es| - 1]) + es[|es| - 1].lines
  }

  /** The aggregated churn of a path, absent paths reading as 0, is its total over the entries. */
  lemma ChurnAtMap(es: seq<Entry>, p: string)
    ensures ChurnAt(ChurnMap(es), p) == ChurnOf(es, p)
  {
    if p !in Paths(es) {
      AbsentPath(es, p);
    }
  }

  /** One more entry adds its lines to the total of any repeat-free file list containing its path. */
  lemma {:induction false} TotalStep(files: seq<string>, es: seq<Entry>, e: Entry)
    requires Distinct(files)
    ensures Total(files, ChurnMap(es + [e])) == Total(files, ChurnMap(es)) + (if e.path in files then e.lines else 0)
  {
    if files != [] {
      var init, f := files[..|files| - 1], files[|files| - 1];
      assert files == init + [f];
      assert Distinct(init) by {
        forall i, j | 0 <= i < j < |init| ensures init[i] != init[j] {
          assert init[i] == files[i] && init[j] == files[j];
        }
      }
      assert f !in init;
      TotalStep(init, es, e);
      ChurnAtMap(es + [e], f);
      ChurnAtMap(es, f);
      assert (es + [e])[..|es|] == es;
    }
  }

  /** The numerator of the mean, `sum(churn.values())`, is the sum of the lines of every included file change. */
  lemma {:induction false} TotalIsAllLines(es: seq<Entry>)
    ensures Total(FirstSeen(es), ChurnMap(es)) == AllLines(es)
  {
    if es != [] {
      var init, e := es[..|es| - 1], es[|es| - 1];
      assert es == init + [e];
      TotalIsAllLines(init);
      FirstSeenElems(init);
      TotalStep(FirstSeen(init), init, e);
      if e.path !in FirstSeen(init) {
        var order := FirstSeen(init);
        assert order + [e.path] == FirstSeen(es);
        assert (order + [e.path])[..|order|] == order;
        ChurnAtMap(es, e.path);
        AbsentPath(init, e.path);
        assert (init + [e])[..|init|] == init;
      }
    }
  }
}
