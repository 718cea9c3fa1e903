/**
 * The two global aggregates that `main` in src/risk_engine.py computes
 * before scoring: the mean churn and the top-20% set.
 */
module Aggregates {
  import opened Sorting

  /** A churn lookup that reads an absent path as 0, like the source's `defaultdict(int)`. */
  function ChurnAt(churn: map<string, nat>, p: string): nat {
    if p in churn then churn[p] else 0
  }

  /** The sum of the churns of `files`: `sum(churn.values())` when `files` lists the keys once each. */
  function Total(files: seq<string>, churn: map<string, nat>): nat {
    if files == [] then 0 else Total(files[..|files| - 1], churn) + ChurnAt(churn, files[|files| - 1])
  }

  /** The total is at least the churn of each listed file. */
  lemma {:induction false} TotalAtLeastEach(files: seq<string>, churn: map<string, nat>, k: nat)
    requires k < |files|
    ensures ChurnAt(churn, files[k]) <= Total(files, churn)
  {
    var init := files[..|files| - 1];
    if k < |init| {
      assert init[k] == files[k];
      TotalAtLeastEach(init, churn, k);
    }
  }

  /** When every listed file has `churn * n >= t`, the total times `n` is at least `t` for each file. */
  lemma {:induction false} SumAtLeast(files: seq<string>, churn: map<string, nat>, t: nat, n: nat)
    requires forall k | 0 <= k < |files| :: ChurnAt(churn, files[k]) * n >= t
    ensures Total(files, churn) * n >= |files| * t
  {
    if files != [] {
      var init := files[..|files| - 1];
      forall k | 0 <= k < |init| ensures ChurnAt(churn, init[k]) * n >= t {
        assert init[k] == files[k];
      }
      SumAtLeast(init, churn, t, n);
      var before, c := Total(init, churn), ChurnAt(churn, files[|files| - 1]);
      assert Total(files, churn) == before + c;
      assert (before + c) * n == before * n + c * n;
      assert (|init| + 1) * t == |init| * t + t;
    }
  }

  /** Not every file is above the mean: "High churn" never fires for all of them. */
  lemma SomeFileNotAboveMean(files: seq<string>, churn: map<string, nat>)
    requires |files| >= 1
    ensures exists k | 0 <= k < |files| :: !AboveMean(ChurnAt(churn, files[k]), Total(files, churn), |files|)
  {
    var total, n := Total(files, churn), |files|;
    if forall k | 0 <= k < n :: AboveMean(ChurnAt(churn, files[k]), total, n) {
      SumAtLeast(files, churn, total + 1, n);
      assert false;
    }
  }

  /** A file above the mean is not the only file: the total bounds its churn. */
  lemma AboveMeanNeedsTwo(files: seq<string>, churn: map<string, nat>, k: nat)
    requires k < |files| && AboveMean(ChurnAt(churn, files[k]), Total(files, churn), |files|)
    ensures |files| >= 2
  {
    TotalAtLeastEach(files, churn, k);
  }

  /**
   * `c > total / n`, the source's comparison with the mean, stated without
   * division: `c * n > total`.
   */
  predicate AboveMean(c: nat, total: nat, n: nat) {
    c * n > total
  }

  /** For a non-empty file set the integer comparison agrees with the comparison with the exact mean. */
  lemma AboveMeanIsAboveAverage(c: nat, total: nat, n: nat)
    requires n > 0
    ensures AboveMean(c, total, n) <==> (c as real) > (total as real) / (n as real)
  {
    var m := (total as real) / (n as real);
    assert m * (n as real) == total as real;
    assert (c * n) as real == (c as real) * (n as real);
    assert (c as real) > m <==> (c as real) * (n as real) > m * (n as real);
  }

  /** The size of the top set for `n` files: `max(1, n // 5)`. */
  function Quota(n: nat): (k: nat)
    ensures k >= 1
    ensures n >= 1 ==> k <= n
    ensures k * 5 <= n || k == 1
  {
    if n / 5 >= 1 then n / 5 else 1
  }

  function ChurnKey(churn: map<string, nat>): string -> int {
    p => ChurnAt(churn, p)
  }

  /** `sorted(files, key=churn.get, reverse=True)`: highest churn first, ties kept in `files` order. */
  function RankedByChurn(files: seq<string>, churn: map<string, nat>): (r: seq<string>)
    ensures multiset(r) == multiset(files)
    ensures forall i, j | 0 <= i < j < |r| :: ChurnAt(churn, r[i]) >= ChurnAt(churn, r[j])
  {
    SortDesc(files, ChurnKey(churn))
  }

  /**
   * The top-20% set: the first `max(1, n // 5)` files of the ranking. It
   * holds only files of `files`, and no file outside it has more churn than
   * a file inside it.
   */
  function Top20(files: seq<string>, churn: map<string, nat>): (top: set<string>)
    ensures top <= Elems(files)
    ensures forall a, b | a in top && b in files && b !in top :: ChurnAt(churn, a) >= ChurnAt(churn, b)
  {
    var ranked := RankedByChurn(files, churn);
    var k := Quota(|files|);
    PrefixOfRanking(files, churn, k);
    Elems(Take(ranked, k))
  }

  /** Any prefix of the ranking is drawn from `files` and outranks every file left out of it. */
  lemma PrefixOfRanking(files: seq<string>, churn: map<string, nat>, k: nat)
    ensures Elems(Take(RankedByChurn(files, churn), k)) <= Elems(files)
    ensures forall a, b | a in Elems(Take(RankedByChurn(files, churn), k)) && b in files
                        && b !in Elems(Take(RankedByChurn(files, churn), k)) :: ChurnAt(churn, a) >= ChurnAt(churn, b)
  {
    var ranked := RankedByChurn(files, churn);
    var top := Elems(Take(ranked, k));
    forall x | x in top ensures x in Elems(files) {
      assert x in multiset(ranked);
    }
    PrefixOutranks(files, churn, k);
  }

  /** No file left out of a prefix of the ranking has more churn than a file in it. */
  lemma PrefixOutranks(files: seq<string>, churn: map<string, nat>, k: nat)
    ensures forall a, b | a in Elems(Take(RankedByChurn(files, churn), k)) && b in files
                        && b !in Elems(Take(RankedByChurn(files, churn), k)) :: ChurnAt(churn, a) >= ChurnAt(churn, b)
  {
    var key := ChurnKey(churn);
    TakeOutranks(files, key, k);
    forall a, b | a in Elems(Take(RankedByChurn(files, churn), k)) && b in files
                && b !in Elems(Take(RankedByChurn(files, churn), k))
      ensures ChurnAt(churn, a) >= ChurnAt(churn, b)
    {
      assert key(a) >= key(b);
    }
  }

  /** For `n >= 1` distinct files the set has exactly `max(1, n // 5)` members. */
  lemma Top20Size(files: seq<string>, churn: map<string, nat>)
    requires Distinct(files) && |files| >= 1
    ensures |Top20(files, churn)| == Quota(|files|)
  {
    var ranked := RankedByChurn(files, churn);
    var k := Quota(|files|);
    PermutationDistinct(files, ranked);
    var prefix := Take(ranked, k);
    assert Distinct(prefix) by {
      forall i, j | 0 <= i < j < |prefix| ensures prefix[i] != prefix[j] {
        assert prefix[i] == ranked[i] && prefix[j] == ranked[j];
      }
    }
    DistinctCard(prefix);
  }

  /** For one to four files the set is the single file the ranking puts first. */
  lemma Top20Small(files: seq<string>, churn: map<string, nat>)
    requires Distinct(files) && 1 <= |files| <= 4
    ensures |Top20(files, churn)| == 1
    ensures Top20(files, churn) == {RankedByChurn(files, churn)[0]}
  {
    Top20Size(files, churn);
    var ranked := RankedByChurn(files, churn);
    assert Take(ranked, 1) == [ranked[0]];
  }

  /** A file with more churn than every other file is in the top set. */
  lemma MaxChurnInTop(files: seq<string>, churn: map<string, nat>, fn: string)
    requires Distinct(files) && fn in files
    requires forall b | b in files && b != fn :: ChurnAt(churn, b) < ChurnAt(churn, fn)
    ensures fn in Top20(files, churn)
  {
    Top20Size(files, churn);
    var top := Top20(files, churn);
    var a :| a in top;
    assert a in files;
    assert fn in top || ChurnAt(churn, a) >= ChurnAt(churn, fn);
  }

  /**
   * Ties are broken by the order of `files`: when two files have the same
   * churn and the later one is in the top set, so is the earlier one.
   */
  lemma TiesKeepOrder(files: seq<string>, churn: map<string, nat>, i: nat, j: nat)
    requires Distinct(files) && i < j < |files|
    requires ChurnAt(churn, files[i]) == ChurnAt(churn, files[j])
    requires files[j] in Top20(files, churn)
    ensures files[i] in Top20(files, churn)
  {
    TieInPrefix(files, ChurnKey(churn), Quota(|files|), i, j);
  }
}
