/**
 * The column primitives the script relies on, stated once and generically:
 * dropping missing cells (`dropna`), first-appearance de-duplication
 * (`unique`), occurrence counts (`value_counts`) and the stable sort that
 * orders them, and the capped preview (`head`).
 */
module Counting {
  import opened Wrappers

  /** Number of occurrences of `x` in `xs`. */
  function Count<T(==)>(xs: seq<T>, x: T): (n: nat)
    ensures n <= |xs|
    ensures n == 0 <==> x !in xs
  {
    if xs == [] then 0 else (if xs[0] == x then 1 else 0) + Count(xs[1..], x)
  }

  lemma {:induction false} CountAppend<T>(a: seq<T>, b: seq<T>, x: T)
    ensures Count(a + b, x) == Count(a, x) + Count(b, x)
  {
    if a == [] {
      assert a + b == b;
    } else {
      assert (a + b)[1..] == a[1..] + b;
      CountAppend(a[1..], b, x);
    }
  }

  /** No element occurs twice. */
  predicate NoDupes<T(==)>(s: seq<T>) {
    forall i, j :: 0 <= i < j < |s| ==> s[i] != s[j]
  }

  /** `a` is obtained from `b` by deleting elements, keeping the order of the rest. */
  predicate IsSubsequence<T(==)>(a: seq<T>, b: seq<T>)
    decreases |b|
  {
    a == [] || (b != [] && ((a[0] == b[0] && IsSubsequence(a[1..], b[1..])) || IsSubsequence(a, b[1..])))
  }

  /** The present cells of a column, in row order (pandas' `dropna`). */
  function Present<T(!new)>(col: seq<Option<T>>): (r: seq<T>)
    ensures |r| <= |col|
    ensures forall v :: v in r <==> Some(v) in col
  {
    if col == [] then []
    else match col[0]
      case Some(v) => [v] + Present(col[1..])
      case None => Present(col[1..])
  }

  lemma {:induction false} PresentAppend<T(!new)>(a: seq<Option<T>>, b: seq<Option<T>>)
    ensures Present(a + b) == Present(a) + Present(b)
  {
    if a == [] {
      assert a + b == b;
    } else {
      assert (a + b)[0] == a[0];
      assert (a + b)[1..] == a[1..] + b;
      PresentAppend(a[1..], b);
    }
  }

  /** Dropping the missing cells does not change how often a value occurs. */
  lemma {:induction false} CountPresent<T(!new)>(col: seq<Option<T>>, v: T)
    ensures Count(Present(col), v) == Count(col, Some(v))
  {
    if col != [] {
      CountPresent(col[1..], v);
      match col[0]
      case Some(w) =>
        assert Present(col) == [w] + Present(col[1..]);
        assert ([w] + Present(col[1..]))[1..] == Present(col[1..]);
      case None =>
    }
  }

  /** Index of the first occurrence of `x` in `xs`. */
  function FirstIndex<T(==)>(xs: seq<T>, x: T): (i: nat)
    requires x in xs
    ensures i < |xs| && xs[i] == x && x !in xs[..i]
  {
    if xs[0] == x then 0
    else
      var k := FirstIndex(xs[1..], x);
      assert xs[..k + 1] == [xs[0]] + xs[1..][..k];
      k + 1
  }

  lemma FirstIndexUnique<T>(xs: seq<T>, x: T, i: nat)
    requires i < |xs| && xs[i] == x && x !in xs[..i]
    ensures FirstIndex(xs, x) == i
  {
    var k := FirstIndex(xs, x);
    assert forall m :: 0 <= m < i ==> xs[m] != x by {
      forall m | 0 <= m < i ensures xs[m] != x { assert xs[..i][m] == xs[m]; }
    }
    assert forall m :: 0 <= m < k ==> xs[m] != x by {
      forall m | 0 <= m < k ensures xs[m] != x { assert xs[..k][m] == xs[m]; }
    }
  }

  /**
   * The distinct elements of `xs` in order of first appearance
   * (pandas' `unique`).
   */
  function Distinct<T(==,!new)>(xs: seq<T>): (r: seq<T>)
    ensures NoDupes(r)
    ensures forall x :: x in r <==> x in xs
    ensures |r| <= |xs|
  {
    if xs == [] then []
    else
      var init, last := xs[..|xs| - 1], xs[|xs| - 1];
      assert xs == init + [last];
      var d := Distinct(init);
      if last in d then d else d + [last]
  }

  /** `Distinct` lists each element at the position of its first appearance. */
  lemma {:induction false} DistinctInFirstAppearanceOrder<T(!new)>(xs: seq<T>)
    ensures forall i, j :: 0 <= i < j < |Distinct(xs)| ==>
      FirstIndex(xs, Distinct(xs)[i]) < FirstIndex(xs, Distinct(xs)[j])
  {
    if xs != [] {
      var init, last := xs[..|xs| - 1], xs[|xs| - 1];
      assert xs == init + [last];
      var d := Distinct(init);
      DistinctInFirstAppearanceOrder(init);
      forall y | y in init
        ensures FirstIndex(xs, y) == FirstIndex(init, y)
      {
        var k := FirstIndex(init, y);
        assert xs[..k] == init[..k];
        FirstIndexUnique(xs, y, k);
      }
      if last !in d {
        assert xs[..|init|] == init;
        FirstIndexUnique(xs, last, |init|);
        forall i, j | 0 <= i < j < |Distinct(xs)|
          ensures FirstIndex(xs, Distinct(xs)[i]) < FirstIndex(xs, Distinct(xs)[j])
        {
          assert Distinct(xs)[i] == d[i];
          if j < |d| {
            assert Distinct(xs)[j] == d[j];
          }
        }
      }
    }
  }

  /** Each key with the number of times it occurs in `xs`. */
  function Tally<T(==)>(xs: seq<T>, keys: seq<T>): (r: seq<(T, nat)>)
    ensures |r| == |keys|
    ensures forall i :: 0 <= i < |r| ==> r[i] == (keys[i], Count(xs, keys[i]))
  {
    if keys == [] then [] else [(keys[0], Count(xs, keys[0]))] + Tally(xs, keys[1..])
  }

  /** The sum of the counts of a tally. */
  function SumCounts<T>(r: seq<(T, nat)>): nat {
    if r == [] then 0 else r[0].1 + SumCounts(r[1..])
  }

  lemma {:induction false} SumCountsAppend<T>(a: seq<(T, nat)>, b: seq<(T, nat)>)
    ensures SumCounts(a + b) == SumCounts(a) + SumCounts(b)
  {
    if a == [] {
      assert a + b == b;
    } else {
      assert (a + b)[1..] == a[1..] + b;
      SumCountsAppend(a[1..], b);
    }
  }

  /** One more item raises the total over distinct keys by one exactly when its key is listed. */
  lemma {:induction false} TallyOneMore<T>(xs: seq<T>, x: T, keys: seq<T>)
    requires NoDupes(keys)
    ensures SumCounts(Tally(xs + [x], keys)) == SumCounts(Tally(xs, keys)) + (if x in keys then 1 else 0)
  {
    if keys != [] {
      CountAppend(xs, [x], keys[0]);
      assert NoDupes(keys[1..]) by {
        forall i, j | 0 <= i < j < |keys[1..]| ensures keys[1..][i] != keys[1..][j] {
          assert keys[1..][i] == keys[i + 1] && keys[1..][j] == keys[j + 1];
        }
      }
      TallyOneMore(xs, x, keys[1..]);
      assert keys == [keys[0]] + keys[1..];
      if x == keys[0] {
        assert x !in keys[1..] by {
          forall j | 0 <= j < |keys[1..]| ensures keys[1..][j] != x {
            assert keys[1..][j] == keys[j + 1];
          }
        }
      }
    }
  }

  /** The counts of the distinct values of `xs` add up to the length of `xs`. */
  lemma {:induction false} TallyTotal<T(!new)>(xs: seq<T>)
    ensures SumCounts(Tally(xs, Distinct(xs))) == |xs|
  {
    if xs != [] {
      var init, last := xs[..|xs| - 1], xs[|xs| - 1];
      assert xs == init + [last];
      var d := Distinct(init);
      TallyTotal(init);
      TallyOneMore(init, last, d);
      if last !in d {
        assert Tally(xs, d + [last]) == Tally(xs, d) + [(last, Count(xs, last))];
        SumCountsAppend(Tally(xs, d), [(last, Count(xs, last))]);
        CountAppend(init, [last], last);
      }
    }
  }

  /** `s` is ordered by non-decreasing `rank`. */
  predicate SortedBy<T>(s: seq<T>, rank: T -> int) {
    forall i, j :: 0 <= i < j < |s| ==> rank(s[i]) <= rank(s[j])
  }

  /** Inserts `x` before the first element of rank at least its own. */
  function InsertByRank<T(==)>(x: T, s: seq<T>, rank: T -> int): (r: seq<T>)
    requires SortedBy(s, rank)
    ensures SortedBy(r, rank)
    ensures multiset(r) == multiset(s) + multiset{x}
    ensures |r| == |s| + 1
    ensures r[0] == x || (s != [] && r[0] == s[0])
  {
    if s == [] || rank(x) <= rank(s[0]) then [x] + s
    else
      var rest := InsertByRank(x, s[1..], rank);
      assert s == [s[0]] + s[1..];
      assert rank(s[0]) <= rank(rest[0]);
      [s[0]] + rest
  }

  /** Stable insertion sort by `rank`: equal ranks keep their original order. */
  function SortByRank<T(==)>(s: seq<T>, rank: T -> int): (r: seq<T>)
    ensures SortedBy(r, rank)
    ensures multiset(r) == multiset(s)
    ensures |r| == |s|
  {
    if s == [] then []
    else
      assert s == [s[0]] + s[1..];
      InsertByRank(s[0], SortByRank(s[1..], rank), rank)
  }

  /** Sequences with equal multisets have the same members. */
  lemma SameMembers<T>(a: seq<T>, b: seq<T>)
    requires multiset(a) == multiset(b)
    ensures forall e :: e in a <==> e in b
  {
    forall e ensures e in a <==> e in b {
      assert e in a <==> e in multiset(a);
      assert e in b <==> e in multiset(b);
    }
  }

  lemma NoDupesTail<T>(s: seq<T>)
    requires NoDupes(s) && s != []
    ensures NoDupes(s[1..]) && s[0] !in s[1..]
  {
    forall i, j | 0 <= i < j < |s[1..]| ensures s[1..][i] != s[1..][j] {
      assert s[1..][i] == s[i + 1] && s[1..][j] == s[j + 1];
    }
    forall j | 0 <= j < |s[1..]| ensures s[1..][j] != s[0] {
      assert s[1..][j] == s[j + 1];
    }
  }

  lemma {:induction false} InsertByRankNoDupes<T>(x: T, s: seq<T>, rank: T -> int)
    requires SortedBy(s, rank) && NoDupes(s) && x !in s
    ensures NoDupes(InsertByRank(x, s, rank))
  {
    if s != [] && rank(s[0]) < rank(x) {
      var rest := InsertByRank(x, s[1..], rank);
      NoDupesTail(s);
      InsertByRankNoDupes(x, s[1..], rank);
      SameMembers(rest, s[1..] + [x]);
      var r := [s[0]] + rest;
      forall i, j | 0 <= i < j < |r| ensures r[i] != r[j] {
        if i == 0 {
          assert r[j] == rest[j - 1] && rest[j - 1] in rest;
        } else {
          assert r[i] == rest[i - 1] && r[j] == rest[j - 1];
        }
      }
    }
  }

  lemma {:induction false} SortByRankNoDupes<T>(s: seq<T>, rank: T -> int)
    requires NoDupes(s)
    ensures NoDupes(SortByRank(s, rank))
  {
    if s != [] {
      NoDupesTail(s);
      SortByRankNoDupes(s[1..], rank);
      var sorted := SortByRank(s[1..], rank);
      SameMembers(sorted, s[1..]);
      InsertByRankNoDupes(s[0], sorted, rank);
    }
  }

  lemma {:induction false} InsertByRankSum<T>(x: (T, nat), s: seq<(T, nat)>, rank: ((T, nat)) -> int)
    requires SortedBy(s, rank)
    ensures SumCounts(InsertByRank(x, s, rank)) == x.1 + SumCounts(s)
  {
    if s == [] || rank(x) <= rank(s[0]) {
      assert ([x] + s)[1..] == s;
    } else {
      var rest := InsertByRank(x, s[1..], rank);
      InsertByRankSum(x, s[1..], rank);
      assert ([s[0]] + rest)[1..] == rest;
    }
  }

  lemma {:induction false} SortByRankSum<T>(s: seq<(T, nat)>, rank: ((T, nat)) -> int)
    ensures SumCounts(SortByRank(s, rank)) == SumCounts(s)
  {
    if s != [] {
      SortByRankSum(s[1..], rank);
      InsertByRankSum(s[0], SortByRank(s[1..], rank), rank);
    }
  }

  /** The keys of a tally. */
  function Keys<T>(r: seq<(T, nat)>): (ks: seq<T>)
    ensures |ks| == |r| && forall i :: 0 <= i < |r| ==> ks[i] == r[i].0
  {
    seq(|r|, i requires 0 <= i < |r| => r[i].0)
  }

  /** No key is listed twice. */
  predicate KeysDistinct<T(==)>(r: seq<(T, nat)>) {
    forall i, j :: 0 <= i < j < |r| ==> r[i].0 != r[j].0
  }

  /** Occurrence counts of the distinct values of `xs`, ordered by `rank`. */
  function SortedTally<T(==,!new)>(xs: seq<T>, rank: ((T, nat)) -> int): (r: seq<(T, nat)>) {
    SortByRank(Tally(xs, Distinct(xs)), rank)
  }

  lemma SortedTallyEntries<T(!new)>(xs: seq<T>, rank: ((T, nat)) -> int)
    ensures var r := SortedTally(xs, rank);
      && (forall i :: 0 <= i < |r| ==> r[i].1 == Count(xs, r[i].0) >= 1)
      && KeysDistinct(r)
  {
    var d := Distinct(xs);
    var t := Tally(xs, d);
    var r := SortedTally(xs, rank);
    SameMembers(r, t);
    assert forall e :: e in t ==> e.0 in xs && e.1 == Count(xs, e.0);
    assert NoDupes(t) by {
      forall i, j | 0 <= i < j < |t| ensures t[i] != t[j] {
        assert t[i].0 == d[i] && t[j].0 == d[j];
      }
    }
    SortByRankNoDupes(t, rank);
    forall i, j | 0 <= i < j < |r| ensures r[i].0 != r[j].0 {
      assert r[i] in r && r[j] in r;
    }
  }

  lemma SortedTallyKeys<T(!new)>(xs: seq<T>, rank: ((T, nat)) -> int)
    ensures forall x :: x in Keys(SortedTally(xs, rank)) <==> x in xs
  {
    var d := Distinct(xs);
    var t := Tally(xs, d);
    var r := SortedTally(xs, rank);
    SameMembers(r, t);
    forall x ensures x in Keys(r) <==> x in xs {
      if x in xs {
        var k :| 0 <= k < |d| && d[k] == x;
        assert t[k] in r;
        var i :| 0 <= i < |r| && r[i] == t[k];
        assert Keys(r)[i] == x;
      }
      if x in Keys(r) {
        var i :| 0 <= i < |r| && Keys(r)[i] == x;
        assert r[i] in t;
      }
    }
  }

  /**
   * What a sorted tally says about `xs`: every value of `xs` is listed once,
   * with the number of times it occurs, nothing else is listed, and the counts
   * add up to the length of `xs`.
   */
  lemma SortedTallySpec<T(!new)>(xs: seq<T>, rank: ((T, nat)) -> int)
    ensures var r := SortedTally(xs, rank);
      && SortedBy(r, rank)
      && KeysDistinct(r)
      && (forall i :: 0 <= i < |r| ==> r[i].1 == Count(xs, r[i].0) >= 1)
      && (forall x :: x in Keys(r) <==> x in xs)
      && SumCounts(r) == |xs|
  {
    SortedTallyEntries(xs, rank);
    SortedTallyKeys(xs, rank);
    TallyTotal(xs);
    SortByRankSum(Tally(xs, Distinct(xs)), rank);
  }

  /** The first `n` elements, or all of them when there are fewer (pandas' `head`). */
  function Head<T>(s: seq<T>, n: nat): (r: seq<T>)
    ensures r <= s
    ensures |r| <= n
    ensures |r| == n || r == s
  {
    if |s| <= n then s else s[..n]
  }
}
