/**
 * Churn aggregation: the fold of `file_churns` in src/risk_engine.py.
 * Each commit is given with its author and the file list that the
 * commit-detail lookup returned; the lookup itself is not modelled.
 */
module Churn {
  import opened Text
  import opened Sorting

  datatype Option<T> = None | Some(value: T)

  /** One file of a commit's details; a count the service leaves out is 0. */
  datatype FileChange = FileChange(path: string, additions: nat, deletions: nat)

  /**
   * A commit: the login of its linked account (None when it has none), its
   * author date as a count of seconds, and its files.
   */
  datatype Commit = Commit(author: Option<string>, date: nat, files: seq<FileChange>)

  /** Path fragments whose files are never aggregated. */
  const EXCLUDE: seq<string> := ["test", "vendor", "node_modules", ".md", ".json", ".lock"]

  /** The identity recorded for a commit with no linked account. */
  const UNKNOWN: string := "unknown"

  predicate Excluded(path: string) {
    ContainsAny(path, EXCLUDE)
  }

  function AuthorName(c: Commit): string {
    match c.author
    case Some(login) => login
    case None => UNKNOWN
  }

  /** The churn of one file change: its added plus its removed lines. */
  function Lines(f: FileChange): nat {
    f.additions + f.deletions
  }

  /** A file change that passed the exclusion filter, credited to its commit's author. */
  datatype Entry = Entry(path: string, lines: nat, author: string)

  /** The entries that one commit's files contribute, in file order. */
  function Included(author: string, fs: seq<FileChange>): seq<Entry> {
    if fs == [] then []
    else
      var f := fs[|fs| - 1];
      Included(author, fs[..|fs| - 1]) + (if Excluded(f.path) then [] else [Entry(f.path, Lines(f), author)])
  }

  /** Every entry the fold visits, in the order it visits them. */
  function Entries(cs: seq<Commit>): seq<Entry> {
    if cs == [] then []
    else
      var c := cs[|cs| - 1];
      Entries(cs[..|cs| - 1]) + Included(AuthorName(c), c.files)
  }

  // Per-path totals over a sequence of entries, each defined by peeling off the last entry.

  function ChurnOf(es: seq<Entry>, p: string): nat {
    if es == [] then 0
    else
      var e := es[|es| - 1];
      ChurnOf(es[..|es| - 1], p) + (if e.path == p then e.lines else 0)
  }

  function CountOf(es: seq<Entry>, p: string): nat {
    if es == [] then 0
    else
      var e := es[|es| - 1];
      CountOf(es[..|es| - 1], p) + (if e.path == p then 1 else 0)
  }

  function AuthorsOf(es: seq<Entry>, p: string): set<string> {
    if es == [] then {}
    else
      var e := es[|es| - 1];
      AuthorsOf(es[..|es| - 1], p) + (if e.path == p then {e.author} else {})
  }

  function Paths(es: seq<Entry>): set<string> {
    if es == [] then {} else Paths(es[..|es| - 1]) + {es[|es| - 1].path}
  }

  /** The distinct paths in order of first appearance: the key order of the source's dictionaries. */
  function FirstSeen(es: seq<Entry>): seq<string> {
    if es == [] then []
    else
      var pre := FirstSeen(es[..|es| - 1]);
      var p := es[|es| - 1].path;
      if p in pre then pre else pre + [p]
  }

  function ChurnMap(es: seq<Entry>): map<string, nat> {
    map p | p in Paths(es) :: ChurnOf(es, p)
  }

  function CountMap(es: seq<Entry>): map<string, nat> {
    map p | p in Paths(es) :: CountOf(es, p)
  }

  function AuthorMap(es: seq<Entry>): map<string, set<string>> {
    map p | p in Paths(es) :: AuthorsOf(es, p)
  }

  /** Every file change named `p`, over all commits and whatever its path: `[f for c in commits for f in c.files if f.path == p]`. */
  function Named(p: string, cs: seq<Commit>): seq<FileChange> {
    if cs == [] then [] else Named(p, cs[..|cs| - 1]) + NamedIn(p, cs[|cs| - 1].files)
  }

  function NamedIn(p: string, fs: seq<FileChange>): seq<FileChange> {
    if fs == [] then []
    else NamedIn(p, fs[..|fs| - 1]) + (if fs[|fs| - 1].path == p then [fs[|fs| - 1]] else [])
  }

  function SumLines(fs: seq<FileChange>): nat {
    if fs == [] then 0 else SumLines(fs[..|fs| - 1]) + Lines(fs[|fs| - 1])
  }

  /** The accumulators hold the totals over `es`. */
  ghost predicate Tallied(churn: map<string, nat>, counts: map<string, nat>, authors: map<string, set<string>>,
                          order: seq<string>, es: seq<Entry>) {
    churn == ChurnMap(es) && counts == CountMap(es) && authors == AuthorMap(es) && order == FirstSeen(es)
  }

  /**
   * The three accumulators of `file_churns` in one pass over the commits
   * and their files; `order` is the order in which paths first appear,
   * which is the iteration order of the source's dictionaries.
   */
  method FileChurns(commits: seq<Commit>)
    returns (churn: map<string, nat>, counts: map<string, nat>, authors: map<string, set<string>>, order: seq<string>)
    ensures churn == ChurnMap(Entries(commits))
    ensures counts == CountMap(Entries(commits))
    ensures authors == AuthorMap(Entries(commits))
    ensures order == FirstSeen(Entries(commits))
  {
    churn, counts, authors, order := map[], map[], map[], [];
    var i := 0;
    while i < |commits|
      invariant 0 <= i <= |commits|
      invariant Tallied(churn, counts, authors, order, Entries(commits[..i]))
    {
      var c := commits[i];
      churn, counts, authors, order := AddCommit(churn, counts, authors, order, AuthorName(c), c.files, Entries(commits[..i]));
      assert commits[..i + 1][..i] == commits[..i];
      i := i + 1;
    }
    assert commits[..|commits|] == commits;
  }

  /** The inner loop of `file_churns`: folds one commit's files into the accumulators. */
  method AddCommit(churn0: map<string, nat>, counts0: map<string, nat>, authors0: map<string, set<string>>,
                   order0: seq<string>, who: string, files: seq<FileChange>, ghost es: seq<Entry>)
    returns (churn: map<string, nat>, counts: map<string, nat>, authors: map<string, set<string>>, order: seq<string>)
    requires Tallied(churn0, counts0, authors0, order0, es)
    ensures Tallied(churn, counts, authors, order, es + Included(who, files))
  {
    churn, counts, authors, order := churn0, counts0, authors0, order0;
    ghost var seen := es;
    var j := 0;
    while j < |files|
      invariant 0 <= j <= |files|
      invariant seen == es + Included(who, files[..j])
      invariant Tallied(churn, counts, authors, order, seen)
    {
      var f := files[j];
      IncludedStep(who, files, j);
      if !Excluded(f.path) {
        var e := Entry(f.path, Lines(f), who);
        churn, counts, authors, order := AddEntry(churn, counts, authors, order, e, seen);
        seen := seen + [e];
      }
      j := j + 1;
    }
    assert files[..|files|] == files;
  }

  /** The three updates of one included file: add its lines, count it, and add its author. */
  method AddEntry(churn0: map<string, nat>, counts0: map<string, nat>, authors0: map<string, set<string>>,
                  order0: seq<string>, e: Entry, ghost es: seq<Entry>)
    returns (churn: map<string, nat>, counts: map<string, nat>, authors: map<string, set<string>>, order: seq<string>)
    requires Tallied(churn0, counts0, authors0, order0, es)
    ensures Tallied(churn, counts, authors, order, es + [e])
  {
    StepTallied(churn0, counts0, authors0, order0, es, e);
    order := if e.path in churn0 then order0 else order0 + [e.path];
    churn := churn0[e.path := (if e.path in churn0 then churn0[e.path] else 0) + e.lines];
    counts := counts0[e.path := (if e.path in counts0 then counts0[e.path] else 0) + 1];
    authors := authors0[e.path := (if e.path in authors0 then authors0[e.path] else {}) + {e.author}];
  }

  /** One more file of a commit adds at most one entry. */
  lemma IncludedStep(who: string, files: seq<FileChange>, j: nat)
    requires j < |files|
    ensures Included(who, files[..j + 1])
         == Included(who, files[..j]) + (if Excluded(files[j].path) then [] else [Entry(files[j].path, Lines(files[j]), who)])
  {
    assert files[..j + 1][..j] == files[..j];
  }

  /** Folding one entry into the accumulators, as the loop body does. */
  lemma StepTallied(churn: map<string, nat>, counts: map<string, nat>, authors: map<string, set<string>>,
                    order: seq<string>, es: seq<Entry>, e: Entry)
    requires Tallied(churn, counts, authors, order, es)
    ensures Tallied(churn[e.path := (if e.path in churn then churn[e.path] else 0) + e.lines],
                    counts[e.path := (if e.path in counts then counts[e.path] else 0) + 1],
                    authors[e.path := (if e.path in authors then authors[e.path] else {}) + {e.author}],
                    if e.path in churn then order else order + [e.path],
                    es + [e])
  {
    StepChurn(es, e);
    assert churn[e.path := (if e.path in churn then churn[e.path] else 0) + e.lines] == ChurnMap(es + [e]);
    StepCount(es, e);
    assert counts[e.path := (if e.path in counts then counts[e.path] else 0) + 1] == CountMap(es + [e]);
    StepAuthors(es, e);
    assert authors[e.path := (if e.path in authors then authors[e.path] else {}) + {e.author}] == AuthorMap(es + [e]);
    StepOrder(es, e);
    assert (if e.path in churn then order else order + [e.path]) == FirstSeen(es + [e]);
  }

  /** How one more entry changes the churn accumulator. */
  lemma StepChurn(es: seq<Entry>, e: Entry)
    ensures ChurnMap(es + [e]) == ChurnMap(es)[e.path := (if e.path in ChurnMap(es) then ChurnMap(es)[e.path] else 0) + e.lines]
  {
    var es' := es + [e];
    assert es'[..|es|] == es;
    if e.path !in Paths(es) {
      AbsentPath(es, e.path);
    }
  }

  /** How one more entry changes the commit-count accumulator. */
  lemma StepCount(es: seq<Entry>, e: Entry)
    ensures CountMap(es + [e]) == CountMap(es)[e.path := (if e.path in CountMap(es) then CountMap(es)[e.path] else 0) + 1]
  {
    var es' := es + [e];
    assert es'[..|es|] == es;
    if e.path !in Paths(es) {
      AbsentPath(es, e.path);
    }
  }

  /** How one more entry changes the author-set accumulator. */
  lemma StepAuthors(es: seq<Entry>, e: Entry)
    ensures AuthorMap(es + [e]) == AuthorMap(es)[e.path := (if e.path in AuthorMap(es) then AuthorMap(es)[e.path] else {}) + {e.author}]
  {
    var es' := es + [e];
    assert es'[..|es|] == es;
    assert Paths(es') == Paths(es) + {e.path};
    if e.path !in Paths(es) {
      AbsentPath(es, e.path);
    }
    var m := AuthorMap(es)[e.path := (if e.path in AuthorMap(es) then AuthorMap(es)[e.path] else {}) + {e.author}];
    assert AuthorMap(es').Keys == m.Keys;
    forall p | p in Paths(es')
      ensures AuthorMap(es')[p] == m[p]
    {
      assert AuthorsOf(es', p) == AuthorsOf(es, p) + (if p == e.path then {e.author} else {});
    }
    if e.path !in Paths(es) {
      AbsentPath(es, e.path);
    }
  }

  /** How one more entry changes the first-seen order. */
  lemma StepOrder(es: seq<Entry>, e: Entry)
    ensures FirstSeen(es + [e]) == if e.path in ChurnMap(es) then FirstSeen(es) else FirstSeen(es) + [e.path]
  {
    var es' := es + [e];
    assert es'[..|es|] == es;
    FirstSeenElems(es);
  }

  /** A path that no entry carries has no churn, no count and no authors. */
  lemma {:induction false} AbsentPath(es: seq<Entry>, p: string)
    requires p !in Paths(es)
    ensures ChurnOf(es, p) == 0 && CountOf(es, p) == 0 && AuthorsOf(es, p) == {}
  {
    if es != [] {
      AbsentPath(es[..|es| - 1], p);
    }
  }

  /** The first-seen order lists exactly the paths, each once. */
  lemma {:induction false} FirstSeenElems(es: seq<Entry>)
    ensures Elems(FirstSeen(es)) == Paths(es)
    ensures Distinct(FirstSeen(es))
  {
    if es != [] {
      FirstSeenElems(es[..|es| - 1]);
    }
  }
}

module ChurnFacts {
  import opened Text
  import opened Sorting
  import opened Churn

  /** An entry comes from one commit exactly when some non-excluded file of it produced it. */
  lemma {:induction false} IncludedMembership(who: string, fs: seq<FileChange>, e: Entry)
    ensures e in Included(who, fs)
        <==> exists j | 0 <= j < |fs| :: !Excluded(fs[j].path) && e == Entry(fs[j].path, Lines(fs[j]), who)
  {
    if fs != [] {
      var init := fs[..|fs| - 1];
      IncludedMembership(who, init, e);
      if exists j | 0 <= j < |fs| :: !Excluded(fs[j].path) && e == Entry(fs[j].path, Lines(fs[j]), who) {
        var j :| 0 <= j < |fs| && !Excluded(fs[j].path) && e == Entry(fs[j].path, Lines(fs[j]), who);
        if j < |fs| - 1 {
          assert init[j] == fs[j];
        }
      }
      if e in Included(who, init) {
        var j :| 0 <= j < |init| && !Excluded(init[j].path) && e == Entry(init[j].path, Lines(init[j]), who);
        assert fs[j] == init[j];
      }
    }
  }

  /** An entry of the fold comes from one of the commits. */
  lemma {:induction false} EntriesCommit(cs: seq<Commit>, e: Entry)
    ensures e in Entries(cs) <==> exists i | 0 <= i < |cs| :: e in Included(AuthorName(cs[i]), cs[i].files)
  {
    if cs != [] {
      var init, c := cs[..|cs| - 1], cs[|cs| - 1];
      EntriesCommit(init, e);
      assert Entries(cs) == Entries(init) + Included(AuthorName(c), c.files);
      if exists i | 0 <= i < |cs| :: e in Included(AuthorName(cs[i]), cs[i].files) {
        var i :| 0 <= i < |cs| && e in Included(AuthorName(cs[i]), cs[i].files);
        if i < |init| {
          assert init[i] == cs[i];
        }
      }
      if e in Entries(init) {
        var i :| 0 <= i < |init| && e in Included(AuthorName(init[i]), init[i].files);
        assert cs[i] == init[i];
      }
    }
  }

  /** The entries of the fold are exactly the non-excluded file changes, each credited to its commit's author. */
  lemma EntriesMembership(cs: seq<Commit>, e: Entry)
    ensures e in Entries(cs)
        <==> exists i, j | 0 <= i < |cs| && 0 <= j < |cs[i].files| ::
               !Excluded(cs[i].files[j].path) && e == Entry(cs[i].files[j].path, Lines(cs[i].files[j]), AuthorName(cs[i]))
  {
    EntriesCommit(cs, e);
    if e in Entries(cs) {
      var i :| 0 <= i < |cs| && e in Included(AuthorName(cs[i]), cs[i].files);
      IncludedMembership(AuthorName(cs[i]), cs[i].files, e);
      var j :| 0 <= j < |cs[i].files| && !Excluded(cs[i].files[j].path)
               && e == Entry(cs[i].files[j].path, Lines(cs[i].files[j]), AuthorName(cs[i]));
    }
    if exists i, j | 0 <= i < |cs| && 0 <= j < |cs[i].files| ::
         !Excluded(cs[i].files[j].path) && e == Entry(cs[i].files[j].path, Lines(cs[i].files[j]), AuthorName(cs[i])) {
      var i, j :| 0 <= i < |cs| && 0 <= j < |cs[i].files| &&
         !Excluded(cs[i].files[j].path) && e == Entry(cs[i].files[j].path, Lines(cs[i].files[j]), AuthorName(cs[i]));
      IncludedMembership(AuthorName(cs[i]), cs[i].files, e);
    }
  }

  /** The paths are those of the entries. */
  lemma {:induction false} PathsMembership(es: seq<Entry>, p: string)
    ensures p in Paths(es) <==> exists e | e in es :: e.path == p
  {
    if es != [] {
      var init := es[..|es| - 1];
      PathsMembership(init, p);
      assert es == init + [es[|es| - 1]];
    }
  }

  /** The authors of a path are those of the entries for it. */
  lemma {:induction false} AuthorsMembership(es: seq<Entry>, p: string, a: string)
    ensures a in AuthorsOf(es, p) <==> exists e | e in es :: e.path == p && e.author == a
  {
    if es != [] {
      var init := es[..|es| - 1];
      AuthorsMembership(init, p, a);
      assert es == init + [es[|es| - 1]];
    }
  }

  /**
   * A path is aggregated exactly when it appears in some commit's files and
   * contains no excluded fragment.
   */
  lemma AggregatedPaths(cs: seq<Commit>, p: string)
    ensures p in ChurnMap(Entries(cs))
        <==> !Excluded(p) && exists i, j | 0 <= i < |cs| && 0 <= j < |cs[i].files| :: cs[i].files[j].path == p
  {
    var es := Entries(cs);
    PathsMembership(es, p);
    if p in Paths(es) {
      var e :| e in es && e.path == p;
      EntriesMembership(cs, e);
    }
    if !Excluded(p) && exists i, j | 0 <= i < |cs| && 0 <= j < |cs[i].files| :: cs[i].files[j].path == p {
      var i, j :| 0 <= i < |cs| && 0 <= j < |cs[i].files| && cs[i].files[j].path == p;
      var e := Entry(p, Lines(cs[i].files[j]), AuthorName(cs[i]));
      EntriesMembership(cs, e);
    }
  }

  /**
   * The author set of an aggregated path holds exactly the authors of the
   * commits that touched it, with "unknown" for commits without an account.
   */
  lemma AggregatedAuthors(cs: seq<Commit>, p: string, a: string)
    requires p in AuthorMap(Entries(cs))
    ensures a in AuthorMap(Entries(cs))[p]
        <==> exists i, j | 0 <= i < |cs| && 0 <= j < |cs[i].files| :: cs[i].files[j].path == p && AuthorName(cs[i]) == a
  {
    var es := Entries(cs);
    AuthorsMembership(es, p, a);
    PathsMembership(es, p);
    var e0 :| e0 in es && e0.path == p;
    EntriesMembership(cs, e0);
    assert !Excluded(p);
    if a in AuthorsOf(es, p) {
      var e :| e in es && e.path == p && e.author == a;
      EntriesMembership(cs, e);
    }
    if exists i, j | 0 <= i < |cs| && 0 <= j < |cs[i].files| :: cs[i].files[j].path == p && AuthorName(cs[i]) == a {
      var i, j :| 0 <= i < |cs| && 0 <= j < |cs[i].files| && cs[i].files[j].path == p && AuthorName(cs[i]) == a;
      var e := Entry(p, Lines(cs[i].files[j]), a);
      EntriesMembership(cs, e);
    }
  }

  /** A commit with no linked account puts "unknown" in the author set of every file it touched. */
  lemma UnknownAuthor(cs: seq<Commit>, i: nat, j: nat)
    requires i < |cs| && j < |cs[i].files| && cs[i].author.None?
    requires !Excluded(cs[i].files[j].path)
    ensures cs[i].files[j].path in AuthorMap(Entries(cs))
    ensures UNKNOWN in AuthorMap(Entries(cs))[cs[i].files[j].path]
  {
    var p := cs[i].files[j].path;
    AggregatedPaths(cs, p);
    AggregatedAuthors(cs, p, UNKNOWN);
  }

  lemma {:induction false} ChurnAppend(a: seq<Entry>, b: seq<Entry>, p: string)
    ensures ChurnOf(a + b, p) == ChurnOf(a, p) + ChurnOf(b, p)
    ensures CountOf(a + b, p) == CountOf(a, p) + CountOf(b, p)
  {
    if b != [] {
      var init := b[..|b| - 1];
      ChurnAppend(a, init, p);
      assert (a + b)[..|a + b| - 1] == a + init;
    } else {
      assert a + b == a;
    }
  }

  lemma {:induction false} SumLinesAppend(a: seq<FileChange>, b: seq<FileChange>)
    ensures SumLines(a + b) == SumLines(a) + SumLines(b)
  {
    if b != [] {
      SumLinesAppend(a, b[..|b| - 1]);
      assert (a + b)[..|a + b| - 1] == a + b[..|b| - 1];
    } else {
      assert a + b == a;
    }
  }

  lemma {:induction false} IncludedTotals(who: string, fs: seq<FileChange>, p: string)
    requires !Excluded(p)
    ensures CountOf(Included(who, fs), p) == |NamedIn(p, fs)|
    ensures ChurnOf(Included(who, fs), p) == SumLines(NamedIn(p, fs))
  {
    if fs != [] {
      var init, f := fs[..|fs| - 1], fs[|fs| - 1];
      IncludedTotals(who, init, p);
      var inc, named := Included(who, init), NamedIn(p, init);
      if Excluded(f.path) {
        assert f.path != p;
        assert inc + [] == inc && named + [] == named;
      } else {
        var e := Entry(f.path, Lines(f), who);
        assert Included(who, fs) == inc + [e];
        assert (inc + [e])[..|inc|] == inc;
        if f.path == p {
          assert (named + [f])[..|named|] == named;
        } else {
          assert named + [] == named;
        }
      }
    }
  }

  /**
   * For a path that is not excluded, the commit count is the number of file
   * changes named by it and the churn is the sum of their added and removed lines.
   */
  lemma {:induction false} AggregatedTotals(cs: seq<Commit>, p: string)
    requires !Excluded(p)
    ensures CountOf(Entries(cs), p) == |Named(p, cs)|
    ensures ChurnOf(Entries(cs), p) == SumLines(Named(p, cs))
  {
    if cs != [] {
      var init := cs[..|cs| - 1];
      var c := cs[|cs| - 1];
      AggregatedTotals(init, p);
      IncludedTotals(AuthorName(c), c.files, p);
      ChurnAppend(Entries(init), Included(AuthorName(c), c.files), p);
      SumLinesAppend(Named(p, init), NamedIn(p, c.files));
    }
  }

  /**
   * The shape of the three accumulators: one key set, listed once each by the
   * iteration order, with no excluded path among them and at least one change per path.
   */
  lemma AggregateShape(cs: seq<Commit>)
    ensures ChurnMap(Entries(cs)).Keys == CountMap(Entries(cs)).Keys == AuthorMap(Entries(cs)).Keys
    ensures Elems(FirstSeen(Entries(cs))) == ChurnMap(Entries(cs)).Keys
    ensures Distinct(FirstSeen(Entries(cs)))
    ensures forall p | p in ChurnMap(Entries(cs)) :: !Excluded(p) && CountMap(Entries(cs))[p] >= 1
  {
    FirstSeenElems(Entries(cs));
    forall p | p in ChurnMap(Entries(cs))
      ensures !Excluded(p) && CountMap(Entries(cs))[p] >= 1
    {
      AggregatedPaths(cs, p);
      AggregatedTotals(cs, p);
      var i, j :| 0 <= i < |cs| && 0 <= j < |cs[i].files| && cs[i].files[j].path == p;
      NamedNonEmpty(cs, p, i, j);
    }
  }

  lemma {:induction false} NamedNonEmpty(cs: seq<Commit>, p: string, i: nat, j: nat)
    requires i < |cs| && j < |cs[i].files| && cs[i].files[j].path == p
    ensures |Named(p, cs)| >= 1
  {
    if i == |cs| - 1 {
      NamedInNonEmpty(cs[i].files, p, j);
    } else {
      var init := cs[..|cs| - 1];
      assert init[i] == cs[i];
      NamedNonEmpty(init, p, i, j);
    }
  }

  lemma {:induction false} NamedInNonEmpty(fs: seq<FileChange>, p: string, j: nat)
    requires j < |fs| && fs[j].path == p
    ensures |NamedIn(p, fs)| >= 1
  {
    if j < |fs| - 1 {
      var init := fs[..|fs| - 1];
      assert init[j] == fs[j];
      NamedInNonEmpty(init, p, j);
    }
  }

  /** Folding in one more commit never lowers a path's churn or commit count. */
  lemma ChurnMonotone(cs: seq<Commit>, c: Commit, p: string)
    ensures ChurnOf(Entries(cs + [c]), p) >= ChurnOf(Entries(cs), p)
    ensures CountOf(Entries(cs + [c]), p) >= CountOf(Entries(cs), p)
  {
    assert (cs + [c])[..|cs|] == cs;
    ChurnAppend(Entries(cs), Included(AuthorName(c), c.files), p);
  }

  /** A path with "test" or ".md" in it never reaches any of the three accumulators. */
  lemma ExclusionFilter(cs: seq<Commit>, p: string)
    requires Contains(p, "test") || Contains(p, ".md")
    ensures p !in ChurnMap(Entries(cs)) && p !in CountMap(Entries(cs)) && p !in AuthorMap(Entries(cs))
  {
    ContainsAnyIff(p, EXCLUDE);
    assert EXCLUDE[0] == "test" && EXCLUDE[3] == ".md";
    AggregatedPaths(cs, p);
  }
}
