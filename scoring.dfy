/** The risk scorer of src/risk_engine.py: `score_file`, its band chain and `_24h_spike`. */
module Scoring {
  import opened Text
  import opened Sorting
  import opened Churn
  import opened Aggregates
  import opened ChurnFacts

  datatype Band = Normal | Watch | High | Critical {
    /** The text stored in the history table and compared by the streak query. */
    function Name(): string {
      match this
      case Normal => "normal"
      case Watch => "watch"
      case High => "high"
      case Critical => "critical"
    }

    /** The position of the band in the order normal < watch < high < critical. */
    function Rank(): nat {
      match this
      case Normal => 0
      case Watch => 1
      case High => 2
      case Critical => 3
    }
  }

  /** Path fragments that mark a file as part of the core system. */
  const CORE: seq<string> := ["src/auth", "src/api", "middleware", "services"]

  /** The maximum the report prints beside each score; the rules can add up to one more. */
  const MAX_SCORE: nat := 6

  /** The six rules, in the order `score_file` applies them; each appends one reason. */
  datatype Reason = HighChurn | TopChurn | Active | Spike24h | CoreSystem | SingleAuthor {
    /** The reason text the report shows. */
    function Text(): string {
      match this
      case HighChurn => "High churn"
      case TopChurn => "Top 20% churn"
      case Active => "Active (>5 commits)"
      case Spike24h => "24 h spike"
      case CoreSystem => "Core system"
      case SingleAuthor => "Single author"
    }

    /** The points the rule adds when it fires. */
    function Points(): nat {
      if this == HighChurn then 2 else 1
    }

    /** The rule's position in the fixed order of application. */
    function Order(): nat {
      match this
      case HighChurn => 0
      case TopChurn => 1
      case Active => 2
      case Spike24h => 3
      case CoreSystem => 4
      case SingleAuthor => 5
    }
  }

  /** The band chain: at most 1 is normal, 2 and 3 watch, exactly 4 high, 5 and above critical. */
  function BandOf(s: int): (b: Band)
    ensures b == Normal <==> s <= 1
    ensures b == Watch <==> 2 <= s <= 3
    ensures b == High <==> s == 4
    ensures b == Critical <==> s >= 5
  {
    if s <= 1 then Normal else if s <= 3 then Watch else if s == 4 then High else Critical
  }

  /** A higher score never gets a lower band. */
  lemma BandMonotone(s: int, t: int)
    requires s <= t
    ensures BandOf(s).Rank() <= BandOf(t).Rank()
  {
  }

  /** The scorer's output for one file. */
  datatype ScoreResult = ScoreResult(file: string, score: nat, band: Band, reasons: seq<Reason>)

  /** `_24h_spike`: at least two file changes named `fn` among the files of the given commits. */
  predicate Spike(fn: string, commits: seq<Commit>) {
    |Named(fn, commits)| >= 2
  }

  /** Every path of every commit, in order, repeats included. */
  function AllPaths(cs: seq<Commit>): seq<string> {
    if cs == [] then [] else AllPaths(cs[..|cs| - 1]) + PathsIn(cs[|cs| - 1].files)
  }

  function PathsIn(fs: seq<FileChange>): seq<string> {
    if fs == [] then [] else PathsIn(fs[..|fs| - 1]) + [fs[|fs| - 1].path]
  }

  lemma {:induction false} NamedInMultiplicity(p: string, fs: seq<FileChange>)
    ensures |NamedIn(p, fs)| == multiset(PathsIn(fs))[p]
  {
    if fs != [] {
      NamedInMultiplicity(p, fs[..|fs| - 1]);
    }
  }

  lemma {:induction false} NamedMultiplicity(p: string, cs: seq<Commit>)
    ensures |Named(p, cs)| == multiset(AllPaths(cs))[p]
  {
    if cs != [] {
      NamedMultiplicity(p, cs[..|cs| - 1]);
      NamedInMultiplicity(p, cs[|cs| - 1].files);
    }
  }

  /** A spike is a path that occurs at least twice among all the commits' file lists. */
  lemma SpikeIffRepeated(fn: string, commits: seq<Commit>)
    ensures Spike(fn, commits) <==> multiset(AllPaths(commits))[fn] >= 2
  {
    NamedMultiplicity(fn, commits);
  }

  /** More commits in the window never remove a spike. */
  lemma SpikeMonotone(fn: string, commits: seq<Commit>, more: seq<Commit>)
    requires Spike(fn, commits)
    ensures Spike(fn, commits + more)
  {
    NamedMultiplicity(fn, commits);
    NamedMultiplicity(fn, commits + more);
    AllPathsAppend(commits, more);
  }

  lemma {:induction false} AllPathsAppend(a: seq<Commit>, b: seq<Commit>)
    ensures AllPaths(a + b) == AllPaths(a) + AllPaths(b)
  {
    if b == [] {
      assert a + b == a;
    } else {
      var init, last := b[..|b| - 1], b[|b| - 1];
      AllPathsAppend(a, init);
      assert (a + b)[..|a + b| - 1] == a + init && (a + b)[|a + b| - 1] == last;
      assert AllPaths(a + b) == AllPaths(a + init) + PathsIn(last.files);
      assert AllPaths(b) == AllPaths(init) + PathsIn(last.files);
    }
  }

  /** The condition of each rule, as the rule table states it. */
  predicate Fires(rule: Reason, fn: string, churn: map<string, nat>, cnt: map<string, nat>,
                  authors: map<string, set<string>>, total: nat, n: nat, top20: set<string>, commits24h: seq<Commit>) {
    match rule
    case HighChurn => AboveMean(ChurnAt(churn, fn), total, n)
    case TopChurn => fn in top20
    case Active => fn in cnt && cnt[fn] > 5
    case Spike24h => Spike(fn, commits24h)
    case CoreSystem => ContainsAny(fn, CORE)
    case SingleAuthor => fn in authors && |authors[fn]| == 1
  }

  /** The total of the points of the listed reasons. */
  function PointsOf(rs: seq<Reason>): nat {
    if rs == [] then 0 else PointsOf(rs[..|rs| - 1]) + rs[|rs| - 1].Points()
  }

  /** The rule table in the order `score_file` applies it. */
  const RULES: seq<Reason> := [HighChurn, TopChurn, Active, Spike24h, CoreSystem, SingleAuthor]

  /** One rule of `score_file`: when it fires, add its points and append its reason. */
  function Apply(fired: bool, rule: Reason, acc: (nat, seq<Reason>)): (nat, seq<Reason>) {
    if fired then (acc.0 + rule.Points(), acc.1 + [rule]) else acc
  }

  /** The rules applied one after another from a zero score and no reasons. */
  function Run(rules: seq<Reason>, fires: Reason -> bool): (nat, seq<Reason>) {
    if rules == [] then (0, [])
    else
      var last := rules[|rules| - 1];
      Apply(fires(last), last, Run(rules[..|rules| - 1], fires))
  }

  /**
   * `score_file`: the six rules of the table, 2 points for churn above the
   * mean (given as the total churn and the number of files) and 1 for each
   * of the others, each appending its reason.
   */
  function ScoreFile(fn: string, churn: map<string, nat>, cnt: map<string, nat>, authors: map<string, set<string>>,
                     total: nat, n: nat, top20: set<string>, commits24h: seq<Commit>): (r: ScoreResult)
    ensures r.file == fn
    ensures r.band == BandOf(r.score)
  {
    var (s, reasons) := Run(RULES, rule => Fires(rule, fn, churn, cnt, authors, total, n, top20, commits24h));
    ScoreResult(fn, s, BandOf(s), reasons)
  }

  /** The rules are listed in increasing order. */
  ghost predicate Increasing(rules: seq<Reason>) {
    forall i, j | 0 <= i < j < |rules| :: rules[i].Order() < rules[j].Order()
  }

  /** Running a table of rules lists exactly the rules that fire. */
  lemma {:induction false} RunMembers(rules: seq<Reason>, fires: Reason -> bool)
    ensures forall x :: x in Run(rules, fires).1 <==> x in rules && fires(x)
  {
    if rules != [] {
      var init := rules[..|rules| - 1];
      RunMembers(init, fires);
      assert rules == init + [rules[|rules| - 1]];
    }
  }

  /** Running a table of rules in increasing order lists the fired rules in table order. */
  lemma {:induction false} RunIncreasing(rules: seq<Reason>, fires: Reason -> bool)
    requires Increasing(rules)
    ensures Increasing(Run(rules, fires).1)
  {
    if rules != [] {
      var init := rules[..|rules| - 1];
      var last := rules[|rules| - 1];
      assert Increasing(init);
      RunIncreasing(init, fires);
      RunMembers(init, fires);
      var acc := Run(init, fires);
      forall x | x in acc.1 ensures x.Order() < last.Order() {
        var i :| 0 <= i < |init| && init[i] == x;
        assert rules[i] == x;
      }
    }
  }

  /** The score of a run is the sum of the points of the reasons it lists. */
  lemma {:induction false} RunPoints(rules: seq<Reason>, fires: Reason -> bool)
    ensures Run(rules, fires).0 == PointsOf(Run(rules, fires).1)
  {
    if rules != [] {
      var init := rules[..|rules| - 1];
      var last := rules[|rules| - 1];
      RunPoints(init, fires);
      var acc := Run(init, fires);
      if fires(last) {
        assert (acc.1 + [last])[..|acc.1|] == acc.1;
      }
    }
  }

  /** When every rule fires, the run lists the whole table. */
  lemma {:induction false} RunAllFire(rules: seq<Reason>, fires: Reason -> bool)
    requires forall i | 0 <= i < |rules| :: fires(rules[i])
    ensures Run(rules, fires).1 == rules
  {
    if rules != [] {
      var init := rules[..|rules| - 1];
      var last := rules[|rules| - 1];
      forall i | 0 <= i < |init| ensures fires(init[i]) {
        assert init[i] == rules[i];
      }
      RunAllFire(init, fires);
      var acc := Run(init, fires);
      assert Run(rules, fires) == Apply(fires(last), last, acc);
      assert rules == acc.1 + [last];
    }
  }

  /** Points of a list without repeats: one each, and one more when "High churn" is there. */
  lemma {:induction false} PointsCount(rs: seq<Reason>)
    requires Increasing(rs)
    ensures PointsOf(rs) == |rs| + (if HighChurn in rs then 1 else 0)
  {
    if rs != [] {
      var init := rs[..|rs| - 1];
      assert Increasing(init);
      PointsCount(init);
      assert rs == init + [rs[|rs| - 1]];
      OrderAtLeastIndex(rs, |rs| - 1);
    }
  }

  /**
   * What a score result means: a reason is listed exactly when its rule
   * fires, the reasons come in rule order without repeats, and the score is
   * the sum of their points, that is their number with "High churn" counted
   * twice, at most 7.
   */
  lemma ScoreMeaning(fn: string, churn: map<string, nat>, cnt: map<string, nat>, authors: map<string, set<string>>,
                     total: nat, n: nat, top20: set<string>, commits24h: seq<Commit>)
    ensures var r := ScoreFile(fn, churn, cnt, authors, total, n, top20, commits24h);
            && (forall rule :: rule in r.reasons <==> Fires(rule, fn, churn, cnt, authors, total, n, top20, commits24h))
            && Increasing(r.reasons)
            && r.score == PointsOf(r.reasons)
            && r.score == |r.reasons| + (if HighChurn in r.reasons then 1 else 0) <= 7
  {
    var fires := rule => Fires(rule, fn, churn, cnt, authors, total, n, top20, commits24h);
    assert Increasing(RULES);
    RunMembers(RULES, fires);
    RunIncreasing(RULES, fires);
    RunPoints(RULES, fires);
    var rs := Run(RULES, fires).1;
    PointsCount(rs);
    EveryRuleListed();
    if rs != [] {
      OrderAtLeastIndex(rs, |rs| - 1);
    }
  }

  /** The table lists every rule. */
  lemma EveryRuleListed()
    ensures forall x :: x in RULES
  {
    forall x ensures x in RULES {
      match x
      case HighChurn => assert RULES[0] == x;
      case TopChurn => assert RULES[1] == x;
      case Active => assert RULES[2] == x;
      case Spike24h => assert RULES[3] == x;
      case CoreSystem => assert RULES[4] == x;
      case SingleAuthor => assert RULES[5] == x;
    }
  }

  /** In an increasing list, the rule at position `i` is at least the `i`-th of the table. */
  lemma {:induction false} OrderAtLeastIndex(rs: seq<Reason>, i: nat)
    requires Increasing(rs) && i < |rs|
    ensures rs[i].Order() >= i
  {
    if i > 0 {
      OrderAtLeastIndex(rs, i - 1);
    }
  }

  /** "High churn" contributes exactly 2 points and appears exactly when the churn exceeds the mean. */
  lemma HighChurnRule(fn: string, churn: map<string, nat>, cnt: map<string, nat>, authors: map<string, set<string>>,
                      total: nat, n: nat, top20: set<string>, commits24h: seq<Commit>)
    requires n > 0
    ensures var r := ScoreFile(fn, churn, cnt, authors, total, n, top20, commits24h);
            (HighChurn in r.reasons <==> (ChurnAt(churn, fn) as real) > (total as real) / (n as real))
            && (HighChurn in r.reasons ==> r.score >= 2 && r.score == |r.reasons| + 1)
  {
    ScoreMeaning(fn, churn, cnt, authors, total, n, top20, commits24h);
    AboveMeanIsAboveAverage(ChurnAt(churn, fn), total, n);
  }

  /** When every rule fires the reasons are the whole table and the score is 7, one more than `MAX_SCORE`: critical. */
  lemma AllFiredScoresSeven(fn: string, churn: map<string, nat>, cnt: map<string, nat>, authors: map<string, set<string>>,
                            total: nat, n: nat, top20: set<string>, commits24h: seq<Commit>)
    requires forall rule :: Fires(rule, fn, churn, cnt, authors, total, n, top20, commits24h)
    ensures var r := ScoreFile(fn, churn, cnt, authors, total, n, top20, commits24h);
            r.reasons == RULES && r.score == 7 > MAX_SCORE && r.band == Critical
  {
    var fires := rule => Fires(rule, fn, churn, cnt, authors, total, n, top20, commits24h);
    RunAllFire(RULES, fires);
    RunPoints(RULES, fires);
    TablePoints();
  }

  /** A run scores at most the points of its table. */
  lemma {:induction false} RunBelow(rules: seq<Reason>, fires: Reason -> bool)
    ensures Run(rules, fires).0 <= PointsOf(rules)
  {
    if rules != [] {
      RunBelow(rules[..|rules| - 1], fires);
    }
  }

  /** A rule of the table that does not fire takes its points off the most a run can score. */
  lemma {:induction false} RunMissing(rules: seq<Reason>, fires: Reason -> bool, x: Reason)
    requires x in rules && !fires(x)
    ensures Run(rules, fires).0 + x.Points() <= PointsOf(rules)
  {
    var init, last := rules[..|rules| - 1], rules[|rules| - 1];
    assert rules == init + [last];
    if last == x {
      RunBelow(init, fires);
    } else {
      RunMissing(init, fires, x);
    }
  }

  /** Without a spike a file scores at most `MAX_SCORE`. */
  lemma NoSpikeAtMost(fn: string, churn: map<string, nat>, cnt: map<string, nat>, authors: map<string, set<string>>,
                      total: nat, n: nat, top20: set<string>, commits24h: seq<Commit>)
    requires !Spike(fn, commits24h)
    ensures ScoreFile(fn, churn, cnt, authors, total, n, top20, commits24h).score <= MAX_SCORE
  {
    var fires := rule => Fires(rule, fn, churn, cnt, authors, total, n, top20, commits24h);
    assert RULES[3] == Spike24h;
    RunMissing(RULES, fires, Spike24h);
    TablePoints();
  }

  /** The table is in rule order and its points add up to 7. */
  lemma TablePoints()
    ensures Increasing(RULES) && PointsOf(RULES) == 7
  {
    assert Increasing(RULES);
    assert RULES[0] == HighChurn;
    PointsCount(RULES);
  }

  /** Every rule can fire at once: a core file above the mean, in the top set, active, in a spike, with one author. */
  lemma AllRulesExceedMax()
    ensures var fn := "src/auth/login.py";
            var r := ScoreFile(fn, map[fn := 10], map[fn := 6], map[fn := {"alice"}], 10, 2, {fn},
                               [Commit(None, 0, [FileChange(fn, 1, 0)]), Commit(None, 0, [FileChange(fn, 0, 1)])]);
            r.score == 7 > MAX_SCORE && r.band == Critical
  {
    var fn := "src/auth/login.py";
    var churn, cnt, authors := map[fn := 10], map[fn := 6], map[fn := {"alice"}];
    var cs := [Commit(None, 0, [FileChange(fn, 1, 0)]), Commit(None, 0, [FileChange(fn, 0, 1)])];
    assert Spike(fn, cs) by {
      NamedInNonEmpty(cs[0].files, fn, 0);
      NamedInNonEmpty(cs[1].files, fn, 0);
      assert cs[..1][..0] == [] && cs[..1] == [cs[0]];
      assert |Named(fn, cs[..1])| >= 1;
    }
    assert ContainsAny(fn, CORE) by {
      assert fn[0..|"src/auth"|] == "src/auth";
      ContainsAt(fn, "src/auth", 0);
      assert CORE[0] == "src/auth";
    }
    assert |{"alice"}| == 1;
    forall x ensures Fires(x, fn, churn, cnt, authors, 10, 2, {fn}, cs) {
      match x
      case HighChurn =>
      case TopChurn =>
      case Active =>
      case Spike24h =>
      case CoreSystem =>
      case SingleAuthor =>
    }
    AllFiredScoresSeven(fn, churn, cnt, authors, 10, 2, {fn}, cs);
  }

  // A worked example: five files with churns 50, 40, 10, 5 and 100 (mean
  // 41), commit counts 4, 3, 2, 1 and 6, and single authors for the first,
  // third and fifth.

  const EXAMPLE_FILES: seq<string> := ["a.py", "b.py", "c.py", "d.py", "e.py"]
  const EXAMPLE_CHURN: map<string, nat> := map["a.py" := 50, "b.py" := 40, "c.py" := 10, "d.py" := 5, "e.py" := 100]
  const EXAMPLE_COUNTS: map<string, nat> := map["a.py" := 4, "b.py" := 3, "c.py" := 2, "d.py" := 1, "e.py" := 6]
  const EXAMPLE_AUTHORS: map<string, set<string>> :=
    map["a.py" := {"ann"}, "b.py" := {"ann", "bob"}, "c.py" := {"ann"}, "d.py" := {"ann", "bob"}, "e.py" := {"ann"}]

  /** In the example the total churn is 205. */
  lemma ExampleTotal()
    ensures Total(EXAMPLE_FILES, EXAMPLE_CHURN) == 205
  {
    var files, churn := EXAMPLE_FILES, EXAMPLE_CHURN;
    assert files[..4] == ["a.py", "b.py", "c.py", "d.py"] && files[..4][..3] == ["a.py", "b.py", "c.py"];
    assert files[..4][..3][..2] == ["a.py", "b.py"] && files[..4][..3][..2][..1] == ["a.py"];
    assert Total(["a.py"], churn) == 50;
    assert Total(["a.py", "b.py"], churn) == 90;
    assert Total(["a.py", "b.py", "c.py"], churn) == 100;
    assert Total(["a.py", "b.py", "c.py", "d.py"], churn) == 105;
  }

  /** In the example the file with churn 100 is the top-20% file. */
  lemma ExampleTop()
    ensures "e.py" in Top20(EXAMPLE_FILES, EXAMPLE_CHURN)
  {
    var files, churn := EXAMPLE_FILES, EXAMPLE_CHURN;
    assert Distinct(files) by {
      forall i, j | 0 <= i < j < |files| ensures files[i] != files[j] {
        assert files[i][0] != files[j][0];
      }
    }
    forall b | b in files && b != "e.py" ensures ChurnAt(churn, b) < ChurnAt(churn, "e.py") {
      assert b == "a.py" || b == "b.py" || b == "c.py" || b == "d.py";
    }
    assert files[4] == "e.py";
    MaxChurnInTop(files, churn, "e.py");
  }

  /**
   * In the example the file with churn 100, given the total of
   * `ExampleTotal` and any top set holding it, scores "High churn",
   * "Top 20% churn", "Active (>5 commits)" and "Single author": 5 points,
   * critical.
   */
  lemma EndToEndExample(top20: set<string>)
    requires "e.py" in top20
    ensures var r := ScoreFile("e.py", EXAMPLE_CHURN, EXAMPLE_COUNTS, EXAMPLE_AUTHORS, 205, 5, top20, []);
            r.reasons == [HighChurn, TopChurn, Active, SingleAuthor] && r.score == 5 && r.band == Critical
  {
    var expected := [HighChurn, TopChurn, Active, SingleAuthor];
    forall x ensures x in expected <==> Fires(x, "e.py", EXAMPLE_CHURN, EXAMPLE_COUNTS, EXAMPLE_AUTHORS, 205, 5, top20, []) {
      match x
      case HighChurn => assert AboveMean(100, 205, 5);
      case TopChurn =>
      case Active =>
      case Spike24h =>
      case CoreSystem =>
      case SingleAuthor => assert |{"ann"}| == 1;
    }
    FiredReasons("e.py", EXAMPLE_CHURN, EXAMPLE_COUNTS, EXAMPLE_AUTHORS, 205, 5, top20, [], expected);
    ScoreMeaning("e.py", EXAMPLE_CHURN, EXAMPLE_COUNTS, EXAMPLE_AUTHORS, 205, 5, top20, []);
  }

  /** A score lists exactly the fired rules in table order, so any such list of them is its reason list. */
  lemma FiredReasons(fn: string, churn: map<string, nat>, cnt: map<string, nat>, authors: map<string, set<string>>,
                     total: nat, n: nat, top20: set<string>, commits24h: seq<Commit>, expected: seq<Reason>)
    requires Increasing(expected)
    requires forall x :: x in expected <==> Fires(x, fn, churn, cnt, authors, total, n, top20, commits24h)
    ensures ScoreFile(fn, churn, cnt, authors, total, n, top20, commits24h).reasons == expected
  {
    ScoreMeaning(fn, churn, cnt, authors, total, n, top20, commits24h);
    SameIncreasing(ScoreFile(fn, churn, cnt, authors, total, n, top20, commits24h).reasons, expected);
  }

  /** Two increasing lists of rules with the same members are equal. */
  lemma {:induction false} SameIncreasing(a: seq<Reason>, b: seq<Reason>)
    requires Increasing(a) && Increasing(b)
    requires forall x :: x in a <==> x in b
    ensures a == b
  {
    if a != [] {
      assert a[0] in b;
    }
    if b != [] {
      assert b[0] in a;
    }
    if a != [] && b != [] {
      var a', b' := a[..|a| - 1], b[..|b| - 1];
      assert a == a' + [a[|a| - 1]] && b == b' + [b[|b| - 1]];
      SameLast(a', a[|a| - 1], b', b[|b| - 1]);
      SameIncreasing(a', b');
    }
  }

  /** Two increasing lists with the same members end alike, and the rest of them have the same members. */
  lemma SameLast(a: seq<Reason>, la: Reason, b: seq<Reason>, lb: Reason)
    requires Increasing(a + [la]) && Increasing(b + [lb])
    requires forall x :: x in a + [la] <==> x in b + [lb]
    ensures la == lb
    ensures Increasing(a) && Increasing(b)
    ensures forall x :: x in a <==> x in b
  {
    LastIsLargest(a + [la]);
    LastIsLargest(b + [lb]);
    assert (a + [la])[..|a|] == a && (b + [lb])[..|b|] == b;
    assert la in b + [lb] && lb in a + [la];
    OrderInjective(la, lb);
    IncreasingPrefix(a, la);
    IncreasingPrefix(b, lb);
    forall x ensures x in a <==> x in b {
      if x in a {
        assert x in (a + [la])[..|a|] && x.Order() < la.Order() && x in b + [lb];
      }
      if x in b {
        assert x in (b + [lb])[..|b|] && x.Order() < lb.Order() && x in a + [la];
      }
    }
  }

  /** Dropping the last rule of an increasing list leaves it increasing. */
  lemma IncreasingPrefix(a: seq<Reason>, la: Reason)
    requires Increasing(a + [la])
    ensures Increasing(a)
  {
    forall i, j | 0 <= i < j < |a| ensures a[i].Order() < a[j].Order() {
      assert (a + [la])[i] == a[i] && (a + [la])[j] == a[j];
    }
  }

  /** In an increasing list the last rule comes after every other member. */
  lemma LastIsLargest(a: seq<Reason>)
    requires Increasing(a) && a != []
    ensures forall x | x in a :: x.Order() <= a[|a| - 1].Order()
    ensures forall x | x in a[..|a| - 1] :: x.Order() < a[|a| - 1].Order()
  {
    forall x | x in a ensures x.Order() <= a[|a| - 1].Order() {
      var i :| 0 <= i < |a| && a[i] == x;
    }
    forall x | x in a[..|a| - 1] ensures x.Order() < a[|a| - 1].Order() {
      var i :| 0 <= i < |a| - 1 && a[..|a| - 1][i] == x;
      assert a[i] == x;
    }
  }

  /** Distinct rules have distinct positions in the table. */
  lemma OrderInjective(x: Reason, y: Reason)
    requires x.Order() == y.Order()
    ensures x == y
  {
  }
}
