/**
 * The `hist` table of src/risk_engine.py: one row per file and run, keyed
 * by (file, timestamp), written with `insert or replace`, and the `streak`
 * query over the two newest rows of a file.
 */
module HistoryStore {
  import opened Sorting
  import opened Scoring

  /** A row of the table: file, score, band and the run's timestamp. */
  datatype Row = Row(file: string, score: nat, band: Band, ts: nat)

  /** The table holds a row with this key. */
  predicate HasKey(rows: seq<Row>, fn: string, ts: nat) {
    exists r | r in rows :: r.file == fn && r.ts == ts
  }

  /** No two rows share a (file, timestamp) key: the table's primary key. */
  ghost predicate UniqueKeys(rows: seq<Row>) {
    forall i, j | 0 <= i < j < |rows| :: rows[i].file != rows[j].file || rows[i].ts != rows[j].ts
  }

  /** The rows of file `fn`, in table order: `where file = ?`. */
  function FileRows(rows: seq<Row>, fn: string): (fr: seq<Row>)
    ensures |fr| <= |rows|
  {
    if rows == [] then []
    else
      var last := rows[|rows| - 1];
      FileRows(rows[..|rows| - 1], fn) + (if last.file == fn then [last] else [])
  }

  /** Exactly the rows of file `fn` are selected. */
  lemma {:induction false} FileRowsMembers(rows: seq<Row>, fn: string)
    ensures forall r :: r in FileRows(rows, fn) <==> r in rows && r.file == fn
  {
    if rows != [] {
      var init, last := rows[..|rows| - 1], rows[|rows| - 1];
      assert rows == init + [last];
      FileRowsMembers(init, fn);
    }
  }

  /** The table without the row keyed (fn, ts), the rest in their order. */
  function WithoutKey(rows: seq<Row>, fn: string, ts: nat): (w: seq<Row>)
    ensures |w| <= |rows|
  {
    if rows == [] then []
    else
      var last := rows[|rows| - 1];
      WithoutKey(rows[..|rows| - 1], fn, ts) + (if last.file == fn && last.ts == ts then [] else [last])
  }

  /** Exactly the rows with another key remain. */
  lemma {:induction false} WithoutKeyMembers(rows: seq<Row>, fn: string, ts: nat)
    ensures forall r :: r in WithoutKey(rows, fn, ts) <==> r in rows && !(r.file == fn && r.ts == ts)
  {
    if rows != [] {
      var init, last := rows[..|rows| - 1], rows[|rows| - 1];
      assert rows == init + [last];
      WithoutKeyMembers(init, fn, ts);
    }
  }

  /** Dropping a key the table does not hold changes nothing. */
  lemma {:induction false} WithoutAbsentKey(rows: seq<Row>, fn: string, ts: nat)
    requires !HasKey(rows, fn, ts)
    ensures WithoutKey(rows, fn, ts) == rows
  {
    if rows != [] {
      var init, last := rows[..|rows| - 1], rows[|rows| - 1];
      assert rows == init + [last];
      assert !HasKey(init, fn, ts) by {
        forall x | x in init ensures !(x.file == fn && x.ts == ts) {
          assert x in rows;
        }
      }
      WithoutAbsentKey(init, fn, ts);
    }
  }

  /** The table after `insert or replace` of `r`: the row with its key, if any, is dropped and `r` is added. */
  function Recorded(rows: seq<Row>, r: Row): (after: seq<Row>)
    ensures r in after && |after| <= |rows| + 1
  {
    WithoutKey(rows, r.file, r.ts) + [r]
  }

  /** Appending a row with a new key keeps the keys unique. */
  lemma UniqueAppend(rows: seq<Row>, r: Row)
    requires UniqueKeys(rows) && !HasKey(rows, r.file, r.ts)
    ensures UniqueKeys(rows + [r])
  {
    var s := rows + [r];
    forall i, j | 0 <= i < j < |s| ensures s[i].file != s[j].file || s[i].ts != s[j].ts {
      if j == |rows| {
        assert s[i] in rows;
      } else {
        assert s[i] == rows[i] && s[j] == rows[j];
      }
    }
  }

  /** Dropping a key keeps the other keys unique. */
  lemma {:induction false} WithoutKeyUnique(rows: seq<Row>, fn: string, ts: nat)
    requires UniqueKeys(rows)
    ensures UniqueKeys(WithoutKey(rows, fn, ts))
  {
    if rows != [] {
      var init, last := rows[..|rows| - 1], rows[|rows| - 1];
      assert UniqueKeys(init) by {
        forall i, j | 0 <= i < j < |init| ensures init[i].file != init[j].file || init[i].ts != init[j].ts {
          assert init[i] == rows[i] && init[j] == rows[j];
        }
      }
      WithoutKeyUnique(init, fn, ts);
      if !(last.file == fn && last.ts == ts) {
        var w := WithoutKey(init, fn, ts);
        WithoutKeyMembers(init, fn, ts);
        assert !HasKey(w, last.file, last.ts) by {
          forall r | r in w ensures r.file != last.file || r.ts != last.ts {
            var i :| 0 <= i < |init| && init[i] == r;
            assert rows[i] == r;
          }
        }
        UniqueAppend(w, last);
      }
    }
  }

  /** The history table, updated in place by `insert or replace`. */
  class History {
    var rows: seq<Row>

    /** The primary key holds. */
    ghost predicate Valid()
      reads this
    {
      UniqueKeys(rows)
    }

    /** A fresh, empty table (`create table if not exists` on a new database). */
    constructor()
      ensures Valid() && rows == []
    {
      rows := [];
    }

    /**
     * `insert or replace`: a row with the same (file, ts) key is dropped and
     * the new row is added; every other row stays as it was.
     */
    method Record(r: Row)
      requires Valid()
      modifies this
      ensures Valid()
      ensures rows == Recorded(old(rows), r)
    {
      var kept := WithoutKey(rows, r.file, r.ts);
      WithoutKeyUnique(rows, r.file, r.ts);
      WithoutKeyMembers(rows, r.file, r.ts);
      UniqueAppend(kept, r);
      rows := kept + [r];
    }

    /** `streak`: the query over the file's two newest rows, counting those with band `band`. */
    method Streak(fn: string, band: Band) returns (k: nat)
      ensures k == StreakOf(rows, fn, band)
    {
      var lastTwo := LastTwo(rows, fn);
      k := 0;
      if |lastTwo| == 2 {
        k := Count(lastTwo, band);
      }
    }
  }

  /** The timestamp as the sort key of `order by ts`. */
  function TsKey(): Row -> int {
    (r: Row) => r.ts
  }

  /** `order by ts desc`: newest first. */
  function ByTime(rows: seq<Row>): (s: seq<Row>)
    ensures multiset(s) == multiset(rows)
  {
    SortDesc(rows, TsKey())
  }

  /** `order by ts desc` puts a newer row before an older one. */
  lemma ByTimeDescending(rows: seq<Row>)
    ensures var s := ByTime(rows); forall i, j | 0 <= i < j < |s| :: s[i].ts >= s[j].ts
  {
  }

  /** `select band from hist where file = ? order by ts desc limit 2`, as rows. */
  function LastTwo(rows: seq<Row>, fn: string): (lastTwo: seq<Row>)
    ensures |lastTwo| <= 2
  {
    Take(ByTime(FileRows(rows, fn)), 2)
  }

  /** The number of rows with band `band`: Python's `list.count`. */
  function Count(s: seq<Row>, band: Band): (c: nat)
    ensures c <= |s|
  {
    if s == [] then 0
    else Count(s[..|s| - 1], band) + (if s[|s| - 1].band == band then 1 else 0)
  }

  /** The count is the length exactly when every row matches. */
  lemma {:induction false} CountAll(s: seq<Row>, band: Band)
    ensures Count(s, band) == |s| <==> forall r | r in s :: r.band == band
  {
    if s != [] {
      var init, last := s[..|s| - 1], s[|s| - 1];
      assert s == init + [last];
      CountAll(init, band);
      assert Count(s, band) == Count(init, band) + (if last.band == band then 1 else 0);
    }
  }

  /** The count is 0 exactly when no row matches. */
  lemma {:induction false} CountNone(s: seq<Row>, band: Band)
    ensures Count(s, band) == 0 <==> forall r | r in s :: r.band != band
  {
    if s != [] {
      var init, last := s[..|s| - 1], s[|s| - 1];
      assert s == init + [last];
      CountNone(init, band);
      assert Count(s, band) == Count(init, band) + (if last.band == band then 1 else 0);
    }
  }

  /** The count over two rows. */
  lemma CountPair(a: Row, b: Row, band: Band)
    ensures Count([a, b], band) == (if a.band == band then 1 else 0) + (if b.band == band then 1 else 0)
  {
    assert [a, b][..1] == [a] && [a][..0] == [];
  }

  /**
   * `streak`: how many of the file's two newest rows carry `band`, and 0
   * when the file has fewer than two rows.
   */
  function StreakOf(rows: seq<Row>, fn: string, band: Band): (k: nat)
    ensures k <= 2
    ensures |FileRows(rows, fn)| < 2 ==> k == 0
  {
    LastTwoLength(rows, fn);
    var lastTwo := LastTwo(rows, fn);
    if |lastTwo| == 2 then Count(lastTwo, band) else 0
  }

  /**
   * The streak is 2 exactly when the file has two rows and both newest rows
   * carry the band, and 0 exactly when it has fewer than two or neither does.
   */
  lemma StreakMeaning(rows: seq<Row>, fn: string, band: Band)
    ensures StreakOf(rows, fn, band) == 2
            <==> |FileRows(rows, fn)| >= 2 && forall r | r in LastTwo(rows, fn) :: r.band == band
    ensures StreakOf(rows, fn, band) == 0
            <==> |FileRows(rows, fn)| < 2 || forall r | r in LastTwo(rows, fn) :: r.band != band
  {
    LastTwoLength(rows, fn);
    CountAll(LastTwo(rows, fn), band);
    CountNone(LastTwo(rows, fn), band);
  }

  /** `streak` reads two rows when the file has at least two, and otherwise all of them. */
  lemma LastTwoLength(rows: seq<Row>, fn: string)
    ensures |LastTwo(rows, fn)| == if |FileRows(rows, fn)| >= 2 then 2 else |FileRows(rows, fn)|
  {
    assert |multiset(ByTime(FileRows(rows, fn)))| == |multiset(FileRows(rows, fn))|;
  }

  /** The rows `streak` reads are rows of the file. */
  lemma LastTwoOfFile(rows: seq<Row>, fn: string)
    ensures forall r | r in LastTwo(rows, fn) :: r in rows && r.file == fn
  {
    var sorted := ByTime(FileRows(rows, fn));
    FileRowsMembers(rows, fn);
    forall r | r in LastTwo(rows, fn) ensures r in rows && r.file == fn {
      assert r in multiset(sorted);
    }
  }

  /**
   * The two rows `streak` reads come newest first, and no other row of the
   * file is newer than either of them.
   */
  lemma LastTwoNewest(rows: seq<Row>, fn: string)
    ensures |LastTwo(rows, fn)| == 2 ==> LastTwo(rows, fn)[0].ts >= LastTwo(rows, fn)[1].ts
    ensures forall a, b | a in LastTwo(rows, fn) && b in FileRows(rows, fn) && b !in LastTwo(rows, fn) :: a.ts >= b.ts
  {
    var sorted := ByTime(FileRows(rows, fn));
    var lastTwo := LastTwo(rows, fn);
    ByTimeDescending(FileRows(rows, fn));
    assert forall t | 0 <= t < |lastTwo| :: sorted[t] == lastTwo[t] && sorted[t] in lastTwo;
    forall a, b | a in lastTwo && b in FileRows(rows, fn) && b !in lastTwo ensures a.ts >= b.ts {
      assert b in multiset(sorted);
      var i :| 0 <= i < |lastTwo| && lastTwo[i] == a;
      var j :| 0 <= j < |sorted| && sorted[j] == b;
      assert sorted[i] == a && i < j;
    }
  }

  /** Recording a row whose key is absent appends it and leaves every other row as it was. */
  lemma FreshKeyAppends(rows: seq<Row>, r: Row)
    requires !HasKey(rows, r.file, r.ts)
    ensures Recorded(rows, r) == rows + [r]
  {
    WithoutAbsentKey(rows, r.file, r.ts);
  }

  /** Recording a row of one file leaves the rows of every other file unchanged. */
  lemma {:induction false} OtherFilesUnchanged(rows: seq<Row>, r: Row, fn: string)
    requires fn != r.file
    ensures FileRows(Recorded(rows, r), fn) == FileRows(rows, fn)
  {
    FileRowsAppend(WithoutKey(rows, r.file, r.ts), r, fn);
    WithoutKeyOtherFile(rows, r.file, r.ts, fn);
  }

  /** Filtering distributes over appending one row. */
  lemma FileRowsAppend(rows: seq<Row>, x: Row, fn: string)
    ensures FileRows(rows + [x], fn) == FileRows(rows, fn) + (if x.file == fn then [x] else [])
  {
    assert (rows + [x])[..|rows|] == rows;
  }

  /** Dropping a key of one file does not touch the rows of another. */
  lemma {:induction false} WithoutKeyOtherFile(rows: seq<Row>, file: string, ts: nat, fn: string)
    requires fn != file
    ensures FileRows(WithoutKey(rows, file, ts), fn) == FileRows(rows, fn)
  {
    if rows != [] {
      var init, last := rows[..|rows| - 1], rows[|rows| - 1];
      WithoutKeyOtherFile(init, file, ts, fn);
      var w := WithoutKey(init, file, ts);
      assert rows == init + [last];
      FileRowsAppend(init, last, fn);
      var tail := if last.file == fn then [last] else [];
      assert FileRows(rows, fn) == FileRows(init, fn) + tail;
      if last.file == file && last.ts == ts {
        assert WithoutKey(rows, file, ts) == w;
        assert tail == [];
      } else {
        assert WithoutKey(rows, file, ts) == w + [last];
        FileRowsAppend(w, last, fn);
      }
    }
  }

  /**
   * After a file's row newer than all its earlier rows is recorded, the two
   * rows `streak` reads are the new row and the file's previous newest row.
   */
  lemma RecordNewest(rows: seq<Row>, r: Row)
    requires forall x | x in FileRows(rows, r.file) :: x.ts < r.ts
    ensures LastTwo(Recorded(rows, r), r.file) == [r] + Take(ByTime(FileRows(rows, r.file)), 1)
  {
    var fr := FileRows(rows, r.file);
    assert !HasKey(rows, r.file, r.ts) by {
      FileRowsMembers(rows, r.file);
      forall x | x in rows && x.file == r.file ensures x.ts != r.ts {
        assert x in fr;
      }
    }
    WithoutAbsentKey(rows, r.file, r.ts);
    assert Recorded(rows, r) == rows + [r];
    FileRowsAppend(rows, r, r.file);
    assert FileRows(rows + [r], r.file) == fr + [r];
    assert forall y | y in fr :: TsKey()(y) < TsKey()(r);
    SortNewest(fr, r, TsKey());
    var sorted := SortDesc(fr, TsKey());
    assert ByTime(fr + [r]) == [r] + sorted;
    TakeCons(r, sorted, 1);
  }
}
