/**
 * A stable sort in non-increasing order of an integer key: the model of
 * Python's `sorted(xs, key=k, reverse=True)`, which keeps equal-key
 * elements in their input order, and of SQL's `order by k desc`.
 */
module Sorting {

  /** `s` is in non-increasing order of `key`. */
  ghost predicate Descending<T>(s: seq<T>, key: T -> int) {
    forall i, j :: 0 <= i < j < |s| ==> key(s[i]) >= key(s[j])
  }

  /** No element occurs twice in `s`. */
  ghost predicate Distinct<T>(s: seq<T>) {
    forall i, j :: 0 <= i < j < |s| ==> s[i] != s[j]
  }

  /** The set of elements of `s`. */
  function Elems<T>(s: seq<T>): set<T> {
    set x | x in s
  }

  /** The first `k` elements of `s`, or all of them when `s` is shorter: Python's `s[:k]`. */
  function Take<T>(s: seq<T>, k: nat): (r: seq<T>)
    ensures |r| == if k <= |s| then k else |s|
    ensures r <= s
  {
    if k <= |s| then s[..k] else s
  }

  /** Taking one more from a sequence with one more element in front. */
  lemma TakeCons<T>(x: T, s: seq<T>, k: nat)
    ensures Take([x] + s, k + 1) == [x] + Take(s, k)
  {
    if k <= |s| {
      assert ([x] + s)[..k + 1] == [x] + s[..k];
    }
  }

  /**
   * Inserts `x` into the descending `s` after every element whose key is at
   * least `key(x)`, so that `x` follows the elements that tie with it.
   */
  function InsertDesc<T>(x: T, s: seq<T>, key: T -> int): (r: seq<T>)
    requires Descending(s, key)
    ensures multiset(r) == multiset(s) + multiset{x}
    ensures Descending(r, key)
  {
    if s == [] then [x]
    else if key(s[0]) < key(x) then
      ConsDescending(x, s, key);
      [x] + s
    else
      var rest := InsertDesc(x, s[1..], key);
      assert s == [s[0]] + s[1..];
      HeadBounds(s[0], x, s[1..], rest, key);
      ConsDescending(s[0], rest, key);
      [s[0]] + rest
  }

  /** A head whose key bounds the first key of a descending `t` keeps `[h] + t` descending. */
  lemma ConsDescending<T>(h: T, t: seq<T>, key: T -> int)
    requires Descending(t, key)
    requires t != [] ==> key(h) >= key(t[0])
    ensures Descending([h] + t, key)
  {
    var r := [h] + t;
    forall i, j | 0 <= i < j < |r| ensures key(r[i]) >= key(r[j]) {
      assert r[j] == t[j - 1];
      if i == 0 {
        assert key(t[0]) >= key(t[j - 1]) || j == 1;
      } else {
        assert r[i] == t[i - 1];
      }
    }
  }

  /** A head whose key bounds `x` and every element of `t` bounds every element of a permutation of `t` plus `x`. */
  lemma HeadBounds<T>(h: T, x: T, t: seq<T>, rest: seq<T>, key: T -> int)
    requires Descending([h] + t, key) && key(h) >= key(x)
    requires multiset(rest) == multiset(t) + multiset{x}
    ensures forall k :: 0 <= k < |rest| ==> key(h) >= key(rest[k])
  {
    forall k | 0 <= k < |rest|
      ensures key(h) >= key(rest[k])
    {
      assert rest[k] in multiset(rest);
      if rest[k] != x {
        assert rest[k] in multiset(t);
        var j :| 0 <= j < |t| && t[j] == rest[k];
        assert ([h] + t)[0] == h && ([h] + t)[j + 1] == t[j];
      }
    }
  }

  /**
   * Stable descending sort by `key`: the last element of the input is
   * inserted after all earlier elements with an equal key.
   */
  function SortDesc<T>(s: seq<T>, key: T -> int): (r: seq<T>)
    ensures multiset(r) == multiset(s)
    ensures Descending(r, key)
  {
    if s == [] then []
    else
      assert s == s[..|s| - 1] + [s[|s| - 1]];
      InsertDesc(s[|s| - 1], SortDesc(s[..|s| - 1], key), key)
  }

  /** Appending an element whose key is above every key in `s` puts it first in the sort, ahead of the sort of `s`. */
  lemma SortNewest<T>(s: seq<T>, x: T, key: T -> int)
    requires forall y | y in s :: key(y) < key(x)
    ensures SortDesc(s + [x], key) == [x] + SortDesc(s, key)
  {
    assert (s + [x])[..|s|] == s;
    var sorted := SortDesc(s, key);
    if sorted != [] {
      assert sorted[0] in multiset(s);
    }
  }

  /** The elements of `s` whose key is `v`, in their order in `s`. */
  function WithKey<T>(s: seq<T>, key: T -> int, v: int): seq<T> {
    if s == [] then []
    else (if key(s[0]) == v then [s[0]] else []) + WithKey(s[1..], key, v)
  }

  /** The elements with key `v` are those of `s` with that key. */
  lemma {:induction false} WithKeyMembers<T>(s: seq<T>, key: T -> int, v: int, x: T)
    ensures x in WithKey(s, key, v) <==> x in s && key(x) == v
  {
    if s != [] {
      WithKeyMembers(s[1..], key, v, x);
      assert s == [s[0]] + s[1..];
    }
  }

  /** Selecting by key distributes over concatenation. */
  lemma {:induction false} WithKeyAppend<T>(a: seq<T>, b: seq<T>, key: T -> int, v: int)
    ensures WithKey(a + b, key, v) == WithKey(a, key, v) + WithKey(b, key, v)
  {
    if a != [] {
      WithKeyAppend(a[1..], b, key, v);
      assert (a + b)[1..] == a[1..] + b && (a + b)[0] == a[0];
    } else {
      assert a + b == b;
    }
  }

  /** Selecting by a key above every key of a descending `s` selects nothing. */
  lemma {:induction false} WithKeyAbove<T>(s: seq<T>, key: T -> int, v: int)
    requires forall k | 0 <= k < |s| :: key(s[k]) < v
    ensures WithKey(s, key, v) == []
  {
    if s != [] {
      assert forall k | 0 <= k < |s[1..]| :: key(s[1..][k]) < v by {
        forall k | 0 <= k < |s[1..]| ensures key(s[1..][k]) < v {
          assert s[1..][k] == s[k + 1];
        }
      }
      WithKeyAbove(s[1..], key, v);
    }
  }

  /** Inserting `x` puts it after every element that ties with it. */
  lemma {:induction false} InsertStable<T>(x: T, s: seq<T>, key: T -> int, v: int)
    requires Descending(s, key)
    ensures WithKey(InsertDesc(x, s, key), key, v) == WithKey(s, key, v) + (if key(x) == v then [x] else [])
  {
    if s == [] {
      WithKeySingle(x, key, v);
    } else if key(s[0]) < key(x) {
      InsertFirstStable(x, s, key, v);
    } else {
      DescendingTail(s, key);
      var rest := InsertDesc(x, s[1..], key);
      assert InsertDesc(x, s, key) == [s[0]] + rest;
      assert s == [s[0]] + s[1..];
      InsertStable(x, s[1..], key, v);
      ConsStable(s[0], rest, s[1..], if key(x) == v then [x] else [], key, v);
    }
  }

  /** Putting the same head in front of two sequences keeps a selection equation between them. */
  lemma ConsStable<T>(h: T, rest: seq<T>, t: seq<T>, extra: seq<T>, key: T -> int, v: int)
    requires WithKey(rest, key, v) == WithKey(t, key, v) + extra
    ensures WithKey([h] + rest, key, v) == WithKey([h] + t, key, v) + extra
  {
    WithKeyCons(h, rest, key, v);
    WithKeyCons(h, t, key, v);
  }

  /** `x` ahead of a descending `s` of smaller keys ties with none of them. */
  lemma InsertFirstStable<T>(x: T, s: seq<T>, key: T -> int, v: int)
    requires Descending(s, key) && s != [] && key(s[0]) < key(x)
    ensures WithKey([x] + s, key, v) == WithKey(s, key, v) + (if key(x) == v then [x] else [])
  {
    assert ([x] + s)[1..] == s;
    if key(x) == v {
      WithKeyAbove(s, key, v);
    }
  }

  /** The tail of a descending sequence is descending. */
  lemma DescendingTail<T>(s: seq<T>, key: T -> int)
    requires Descending(s, key) && s != []
    ensures Descending(s[1..], key)
  {
    forall i, j | 0 <= i < j < |s[1..]| ensures key(s[1..][i]) >= key(s[1..][j]) {
      assert s[1..][i] == s[i + 1] && s[1..][j] == s[j + 1];
    }
  }

  /**
   * The sort is stable: for every key value, the elements with that key
   * come out in the order they came in.
   */
  lemma {:induction false} SortStable<T>(s: seq<T>, key: T -> int, v: int)
    ensures WithKey(SortDesc(s, key), key, v) == WithKey(s, key, v)
  {
    if s != [] {
      var init, last := s[..|s| - 1], s[|s| - 1];
      assert s == init + [last];
      var sorted := SortDesc(init, key);
      var tail := if key(last) == v then [last] else [];
      assert SortDesc(s, key) == InsertDesc(last, sorted, key);
      SortStable(init, key, v);
      InsertStable(last, sorted, key, v);
      WithKeyAppend(init, [last], key, v);
      WithKeySingle(last, key, v);
      calc {
        WithKey(SortDesc(s, key), key, v);
        WithKey(sorted, key, v) + tail;
        WithKey(init, key, v) + WithKey([last], key, v);
        WithKey(s, key, v);
      }
    }
  }

  /** Selecting by key from a sequence with one more element in front. */
  lemma WithKeyCons<T>(h: T, t: seq<T>, key: T -> int, v: int)
    ensures WithKey([h] + t, key, v) == (if key(h) == v then [h] else []) + WithKey(t, key, v)
  {
    assert ([h] + t)[1..] == t;
  }

  lemma WithKeySingle<T>(x: T, key: T -> int, v: int)
    ensures WithKey([x], key, v) == if key(x) == v then [x] else []
  {
    assert [x][1..] == [];
  }

  /** Selecting by key from a repeat-free sequence leaves it repeat-free. */
  lemma {:induction false} WithKeyDistinct<T>(s: seq<T>, key: T -> int, v: int)
    requires Distinct(s)
    ensures Distinct(WithKey(s, key, v))
  {
    if s != [] {
      var t := s[1..];
      assert Distinct(t) by {
        forall i, j | 0 <= i < j < |t| ensures t[i] != t[j] {
          assert s[i + 1] == t[i] && s[j + 1] == t[j];
        }
      }
      WithKeyDistinct(t, key, v);
      WithKeyMembers(t, key, v, s[0]);
      assert s[0] !in t by {
        forall k | 0 <= k < |t| ensures t[k] != s[0] {
          assert t[k] == s[k + 1];
        }
      }
      var w := WithKey(t, key, v);
      var r := (if key(s[0]) == v then [s[0]] else []) + w;
      forall i, j | 0 <= i < j < |r| ensures r[i] != r[j] {
        if key(s[0]) == v && i == 0 {
          assert r[j] == w[j - 1] && w[j - 1] in w;
        } else if key(s[0]) == v {
          assert r[i] == w[i - 1] && r[j] == w[j - 1];
        } else {
          assert r[i] == w[i] && r[j] == w[j];
        }
      }
    }
  }

  /**
   * In a repeat-free `a + b`, an element of `a` comes before an element of
   * `b`: any prefix that holds the second holds the first.
   */
  lemma EarlierInPrefix<T>(a: seq<T>, b: seq<T>, c: seq<T>, d: seq<T>, x: T, y: T)
    requires Distinct(a + b) && a + b == c + d
    requires x in a && y in b && y in c
    ensures x in c
  {
    var f := a + b;
    var p :| 0 <= p < |a| && a[p] == x;
    var q :| 0 <= q < |b| && b[q] == y;
    var r :| 0 <= r < |c| && c[r] == y;
    assert f[p] == x && f[|a| + q] == y && f[r] == y;
    assert r == |a| + q;
    assert c[p] == f[p];
  }

  /**
   * Of two elements with equal keys, the later one in `s` is in a prefix of
   * the sort only if the earlier one is too.
   */
  lemma TieInPrefix<T>(s: seq<T>, key: T -> int, k: nat, i: nat, j: nat)
    requires Distinct(s) && i < j < |s| && key(s[i]) == key(s[j])
    requires s[j] in Take(SortDesc(s, key), k)
    ensures s[i] in Take(SortDesc(s, key), k)
  {
    var sorted := SortDesc(s, key);
    assert |multiset(sorted)| == |multiset(s)|;
    if k > |sorted| {
      assert s[i] in multiset(s);
    } else {
      assert Take(sorted, k) == sorted[..k];
      SortStable(s, key, key(s[j]));
      TieKept(s, sorted, key, k, i, j);
    }
  }

  /**
   * When `t` keeps the elements of `s` with one key in their order, of two
   * such elements of a repeat-free `s` a prefix of `t` holding the later
   * one holds the earlier one.
   */
  lemma TieKept<T>(s: seq<T>, t: seq<T>, key: T -> int, k: nat, i: nat, j: nat)
    requires Distinct(s) && i < j < |s| && key(s[i]) == key(s[j])
    requires WithKey(t, key, key(s[j])) == WithKey(s, key, key(s[j]))
    requires k <= |t| && s[j] in t[..k]
    ensures s[i] in t[..k]
  {
    var v := key(s[j]);
    var pre, post := t[..k], t[k..];
    assert t == pre + post;
    var a, b := s[..j], s[j..];
    assert s == a + b;
    assert a[i] == s[i] && b[0] == s[j];
    WithKeyAppend(a, b, key, v);
    WithKeyAppend(pre, post, key, v);
    WithKeyDistinct(s, key, v);
    WithKeyMembers(a, key, v, s[i]);
    WithKeyMembers(b, key, v, s[j]);
    WithKeyMembers(pre, key, v, s[j]);
    WithKeyMembers(pre, key, v, s[i]);
    EarlierInPrefix(WithKey(a, key, v), WithKey(b, key, v), WithKey(pre, key, v), WithKey(post, key, v), s[i], s[j]);
  }

  /** In a descending sequence, nothing after position `k` outranks anything before it. */
  lemma PrefixDominates<T>(s: seq<T>, k: nat, key: T -> int)
    requires Descending(s, key) && k <= |s|
    ensures forall x, y :: x in s[..k] && y in s[k..] ==> key(x) >= key(y)
  {
    forall x, y | x in s[..k] && y in s[k..]
      ensures key(x) >= key(y)
    {
      var i :| 0 <= i < k && s[..k][i] == x;
      var j :| 0 <= j < |s| - k && s[k..][j] == y;
      assert s[i] == x && s[k + j] == y;
    }
  }

  /** Nothing of `s` left out of a prefix of its sort outranks an element of the prefix. */
  lemma TakeOutranks<T>(s: seq<T>, key: T -> int, k: nat)
    ensures forall a, b | a in Elems(Take(SortDesc(s, key), k)) && b in s && b !in Elems(Take(SortDesc(s, key), k))
              :: key(a) >= key(b)
  {
    var sorted := SortDesc(s, key);
    if k <= |sorted| {
      PermutationPrefixOutranks(s, sorted, key, k);
    } else {
      forall b | b in s ensures b in Elems(Take(sorted, k)) {
        assert b in multiset(s);
        assert b in multiset(sorted);
      }
    }
  }

  /** In a descending permutation `t` of `s`, nothing of `s` left out of `t[..k]` outranks an element of it. */
  lemma PermutationPrefixOutranks<T>(s: seq<T>, t: seq<T>, key: T -> int, k: nat)
    requires multiset(t) == multiset(s) && Descending(t, key) && k <= |t|
    ensures forall a, b | a in Elems(Take(t, k)) && b in s && b !in Elems(Take(t, k)) :: key(a) >= key(b)
  {
    var pre, post := t[..k], t[k..];
    assert t == pre + post;
    assert Take(t, k) == pre;
    PrefixDominates(t, k, key);
    forall a, b | a in Elems(pre) && b in s && b !in Elems(pre) ensures key(a) >= key(b) {
      assert b in multiset(t);
      assert a in pre && b in post;
    }
  }

  /** A sequence is free of repeats exactly when no element has multiplicity above one. */
  lemma {:induction false} DistinctMultiplicity<T>(s: seq<T>)
    ensures Distinct(s) <==> forall x :: multiset(s)[x] <= 1
  {
    if s != [] {
      var t := s[1..];
      assert s == [s[0]] + t;
      assert multiset(s) == multiset{s[0]} + multiset(t);
      DistinctMultiplicity(t);
      if Distinct(s) {
        assert Distinct(t) by {
          forall i, j | 0 <= i < j < |t| ensures t[i] != t[j] {
            assert s[i + 1] == t[i] && s[j + 1] == t[j];
          }
        }
        assert s[0] !in t;
        assert multiset(t)[s[0]] == 0;
      } else {
        var i, j :| 0 <= i < j < |s| && s[i] == s[j];
        if i == 0 {
          assert t[j - 1] == s[0];
          assert multiset(t)[s[0]] >= 1;
          assert multiset(s)[s[0]] >= 2;
        } else {
          assert !Distinct(t) by { assert t[i - 1] == t[j - 1]; }
          var x :| multiset(t)[x] > 1;
          assert multiset(s)[x] > 1;
        }
      }
    }
  }

  /** A permutation of a repeat-free sequence is repeat-free. */
  lemma PermutationDistinct<T>(a: seq<T>, b: seq<T>)
    requires multiset(a) == multiset(b) && Distinct(a)
    ensures Distinct(b)
  {
    DistinctMultiplicity(a);
    DistinctMultiplicity(b);
  }

  /** A repeat-free sequence has as many elements as its set. */
  lemma {:induction false} DistinctCard<T>(s: seq<T>)
    requires Distinct(s)
    ensures |Elems(s)| == |s|
  {
    if s != [] {
      var t := s[1..];
      assert Distinct(t) by {
        forall i, j | 0 <= i < j < |t| ensures t[i] != t[j] {
          assert s[i + 1] == t[i] && s[j + 1] == t[j];
        }
      }
      DistinctCard(t);
      assert s[0] !in t;
      assert Elems(s) == {s[0]} + Elems(t) by {
        assert s == [s[0]] + t;
      }
    }
  }
}
