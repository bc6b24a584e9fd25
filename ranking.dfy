/**
 The top-10 selection `sorted(items, key=lambda x: x[1], reverse=True)[:10]`.
 Python's `sorted` is stable, also with `reverse=True`: entries whose values
 compare equal keep the order they had in the input. The values are compared
 through `rank`, which stands for the order of the value type.
 */
module Ranking {

  /** The number of entries the chart shows. */
  const TopCount := 10

  /** No key occurs twice, as in the items of a dictionary. */
  ghost predicate DistinctKeys<K, V>(s: seq<(K, V)>)
  {
    forall i, j :: 0 <= i < j < |s| ==> s[i].0 != s[j].0
  }

  /** Non-increasing by rank of the value. */
  ghost predicate SortedDesc<K, V>(s: seq<(K, V)>, rank: V -> int)
  {
    forall i, j :: 0 <= i < j < |s| ==> rank(s[i].1) >= rank(s[j].1)
  }

  /** The entries whose value has rank `k`, in the order they occur. */
  function WithRank<K, V>(s: seq<(K, V)>, rank: V -> int, k: int): (t: seq<(K, V)>)
    ensures |t| <= |s|
    ensures forall i :: 0 <= i < |t| ==> rank(t[i].1) == k && t[i] in s
  {
    if s == [] then []
    else (if rank(s[0].1) == k then [s[0]] else []) + WithRank(s[1..], rank, k)
  }

  /** `r` lists the entries of each rank in the same order as `s` does. */
  ghost predicate SameOrderPerRank<K, V>(r: seq<(K, V)>, s: seq<(K, V)>, rank: V -> int)
  {
    forall k :: WithRank(r, rank, k) == WithRank(s, rank, k)
  }

  /** Inserts `x` in front of the first entry that does not outrank it. */
  function InsertDesc<K, V>(x: (K, V), s: seq<(K, V)>, rank: V -> int): (r: seq<(K, V)>)
    ensures multiset(r) == multiset(s) + multiset{x}
    ensures |r| == |s| + 1 && (r[0] == x || (s != [] && r[0] == s[0]))
  {
    if s == [] || rank(x.1) >= rank(s[0].1) then [x] + s
    else
      assert s == [s[0]] + s[1..];
      [s[0]] + InsertDesc(x, s[1..], rank)
  }

  lemma SortedCons<K, V>(a: (K, V), t: seq<(K, V)>, rank: V -> int)
    requires SortedDesc(t, rank)
    requires t != [] ==> rank(a.1) >= rank(t[0].1)
    ensures SortedDesc([a] + t, rank)
  {
    var r := [a] + t;
    forall i, j | 0 <= i < j < |r|
      ensures rank(r[i].1) >= rank(r[j].1)
    {
      if i == 0 && j > 1 {
        assert rank(t[0].1) >= rank(t[j - 1].1);
      }
    }
  }

  lemma {:induction false} InsertDescSorted<K, V>(x: (K, V), s: seq<(K, V)>, rank: V -> int)
    requires SortedDesc(s, rank)
    ensures SortedDesc(InsertDesc(x, s, rank), rank)
  {
    if s == [] || rank(x.1) >= rank(s[0].1) {
      SortedCons(x, s, rank);
    } else {
      var rest := InsertDesc(x, s[1..], rank);
      InsertDescSorted(x, s[1..], rank);
      assert rest[0] == x || rank(s[0].1) >= rank(rest[0].1);
      SortedCons(s[0], rest, rank);
    }
  }

  lemma {:induction false} WithRankAppend<K, V>(a: seq<(K, V)>, b: seq<(K, V)>, rank: V -> int, k: int)
    ensures WithRank(a + b, rank, k) == WithRank(a, rank, k) + WithRank(b, rank, k)
  {
    if a == [] {
      assert a + b == b;
    } else {
      assert (a + b)[0] == a[0];
      assert (a + b)[1..] == a[1..] + b;
      WithRankAppend(a[1..], b, rank, k);
      var head := if rank(a[0].1) == k then [a[0]] else [];
      assert WithRank(a + b, rank, k) == head + (WithRank(a[1..], rank, k) + WithRank(b, rank, k));
    }
  }

  /** Among the entries of each rank, `x` comes first: it goes before every entry that does not outrank it. */
  lemma {:induction false} InsertDescPerRank<K, V>(x: (K, V), s: seq<(K, V)>, rank: V -> int, k: int)
    ensures WithRank(InsertDesc(x, s, rank), rank, k) == (if rank(x.1) == k then [x] else []) + WithRank(s, rank, k)
  {
    if s == [] || rank(x.1) >= rank(s[0].1) {
      WithRankAppend([x], s, rank, k);
    } else {
      var rest := InsertDesc(x, s[1..], rank);
      InsertDescPerRank(x, s[1..], rank, k);
      WithRankAppend([s[0]], rest, rank, k);
      WithRankAppend([s[0]], s[1..], rank, k);
      assert s == [s[0]] + s[1..];
    }
  }

  /** Python's `sorted(s, key=rank, reverse=True)`: a stable sort into non-increasing rank. */
  function SortDesc<K, V>(s: seq<(K, V)>, rank: V -> int): (r: seq<(K, V)>)
    ensures multiset(r) == multiset(s) && |r| == |s|
  {
    if s == [] then []
    else
      assert s == [s[0]] + s[1..];
      InsertDesc(s[0], SortDesc(s[1..], rank), rank)
  }

  /** The result of the sort is non-increasing by rank. */
  lemma {:induction false} SortDescSorted<K, V>(s: seq<(K, V)>, rank: V -> int)
    ensures SortedDesc(SortDesc(s, rank), rank)
  {
    if s != [] {
      SortDescSorted(s[1..], rank);
      InsertDescSorted(s[0], SortDesc(s[1..], rank), rank);
    }
  }

  /** The sort is stable: entries of equal rank keep their input order. */
  lemma {:induction false} SortDescStable<K, V>(s: seq<(K, V)>, rank: V -> int)
    ensures SameOrderPerRank(SortDesc(s, rank), s, rank)
  {
    if s != [] {
      SortDescStable(s[1..], rank);
      forall k
        ensures WithRank(SortDesc(s, rank), rank, k) == WithRank(s, rank, k)
      {
        InsertDescPerRank(s[0], SortDesc(s[1..], rank), rank, k);
        WithRankAppend([s[0]], s[1..], rank, k);
        assert s == [s[0]] + s[1..];
      }
    }
  }

  /** Sorting keeps the keys distinct. */
  lemma {:induction false} InsertDescDistinct<K, V>(x: (K, V), s: seq<(K, V)>, rank: V -> int)
    requires DistinctKeys(s)
    requires forall i :: 0 <= i < |s| ==> s[i].0 != x.0
    ensures DistinctKeys(InsertDesc(x, s, rank))
  {
    if s != [] && rank(x.1) < rank(s[0].1) {
      var rest := InsertDesc(x, s[1..], rank);
      InsertDescDistinct(x, s[1..], rank);
      forall i | 0 <= i < |rest|
        ensures rest[i].0 != s[0].0
      {
        assert rest[i] in multiset(rest);
        if rest[i] != x {
          assert rest[i] in multiset(s[1..]);
        }
      }
      DistinctCons(s[0], rest);
    }
  }

  lemma DistinctCons<K, V>(a: (K, V), t: seq<(K, V)>)
    requires DistinctKeys(t)
    requires forall i :: 0 <= i < |t| ==> t[i].0 != a.0
    ensures DistinctKeys([a] + t)
  {
    var r := [a] + t;
    forall i, j | 0 <= i < j < |r|
      ensures r[i].0 != r[j].0
    {
      assert r[j] == t[j - 1];
      if i > 0 {
        assert r[i] == t[i - 1];
      }
    }
  }

  lemma {:induction false} SortDescDistinct<K, V>(s: seq<(K, V)>, rank: V -> int)
    requires DistinctKeys(s)
    ensures DistinctKeys(SortDesc(s, rank))
  {
    if s != [] {
      var rest := SortDesc(s[1..], rank);
      SortDescDistinct(s[1..], rank);
      forall i | 0 <= i < |rest|
        ensures rest[i].0 != s[0].0
      {
        assert rest[i] in multiset(s[1..]);
      }
      InsertDescDistinct(s[0], rest, rank);
    }
  }

  lemma WithRankHead<K, V>(s: seq<(K, V)>, rank: V -> int)
    requires s != []
    ensures WithRank(s, rank, rank(s[0].1)) == [s[0]] + WithRank(s[1..], rank, rank(s[0].1))
  {
  }

  /**
   A sequence that is non-increasing by rank and keeps each rank's entries
   in input order is determined by those two facts: every stable descending
   sort of `s` returns `SortDesc(s, rank)`.
   */
  lemma {:induction false} SortedStableUnique<K, V>(r1: seq<(K, V)>, r2: seq<(K, V)>, rank: V -> int)
    requires SortedDesc(r1, rank) && SortedDesc(r2, rank)
    requires SameOrderPerRank(r1, r2, rank)
    ensures r1 == r2
    decreases |r1| + |r2|
  {
    if r1 == [] && r2 == [] {
    } else if r2 == [] {
      WithRankHead(r1, rank);
      assert false;
    } else if r1 == [] {
      WithRankHead(r2, rank);
      assert false;
    } else {
      var a, b := rank(r1[0].1), rank(r2[0].1);
      var wb := WithRank(r1, rank, b);
      assert WithRank(r2, rank, b) == [r2[0]] + WithRank(r2[1..], rank, b);
      assert wb[0] in r1;
      var wa := WithRank(r2, rank, a);
      assert WithRank(r1, rank, a) == [r1[0]] + WithRank(r1[1..], rank, a);
      assert wa[0] in r2;
      assert a == b;
      assert r1[0] == r2[0];
      forall k
        ensures WithRank(r1[1..], rank, k) == WithRank(r2[1..], rank, k)
      {
        var head := if a == k then [r1[0]] else [];
        var w1, w2 := WithRank(r1[1..], rank, k), WithRank(r2[1..], rank, k);
        assert WithRank(r1, rank, k) == head + w1;
        assert WithRank(r2, rank, k) == head + w2;
        assert w1 == (head + w1)[|head|..];
        assert w2 == (head + w2)[|head|..];
      }
      SortedStableUnique(r1[1..], r2[1..], rank);
      assert r1 == [r1[0]] + r1[1..] && r2 == [r2[0]] + r2[1..];
    }
  }

  /** Any stable sort into non-increasing rank agrees with `SortDesc`. */
  lemma SortDescUnique<K, V>(s: seq<(K, V)>, r: seq<(K, V)>, rank: V -> int)
    requires SortedDesc(r, rank) && SameOrderPerRank(r, s, rank)
    ensures r == SortDesc(s, rank)
  {
    SortDescSorted(s, rank);
    SortDescStable(s, rank);
    SortedStableUnique(r, SortDesc(s, rank), rank);
  }

  /** How many entries the selection keeps out of `n`. */
  function Kept(n: nat): (m: nat)
    ensures m <= n && m <= TopCount && (m == n || m == TopCount)
  {
    if n < TopCount then n else TopCount
  }

  /** `sorted(items, key=lambda x: x[1], reverse=True)[:10]` */
  function TopTen<K, V>(items: seq<(K, V)>, rank: V -> int): (r: seq<(K, V)>)
    ensures |r| == Kept(|items|)
  {
    SortDesc(items, rank)[..Kept(|items|)]
  }

  lemma WithRankPrefix<K, V>(s: seq<(K, V)>, n: nat, rank: V -> int, k: int)
    requires n <= |s|
    ensures WithRank(s[..n], rank, k) <= WithRank(s, rank, k)
  {
    assert s == s[..n] + s[n..];
    WithRankAppend(s[..n], s[n..], rank, k);
  }

  lemma TopTenSplit<K, V>(items: seq<(K, V)>, rank: V -> int)
    ensures var sorted := SortDesc(items, rank);
      sorted == TopTen(items, rank) + sorted[Kept(|items|)..]
  {
    var sorted := SortDesc(items, rank);
    SplitAt(sorted, Kept(|items|));
  }

  lemma SplitAt<T>(s: seq<T>, n: nat)
    requires n <= |s|
    ensures s == s[..n] + s[n..]
  {
  }

  /** The selection is non-increasing by value and takes its entries from the input. */
  lemma TopTenSorted<K, V>(items: seq<(K, V)>, rank: V -> int)
    ensures SortedDesc(TopTen(items, rank), rank)
    ensures multiset(TopTen(items, rank)) <= multiset(items)
  {
    var sorted := SortDesc(items, rank);
    SortDescSorted(items, rank);
    TopTenSplit(items, rank);
    assert multiset(sorted) == multiset(TopTen(items, rank)) + multiset(sorted[Kept(|items|)..]);
  }

  /** Entries of equal value appear in the selection in their input order: a prefix of them is kept. */
  lemma TopTenStable<K, V>(items: seq<(K, V)>, rank: V -> int, k: int)
    ensures WithRank(TopTen(items, rank), rank, k) <= WithRank(items, rank, k)
  {
    SortDescStable(items, rank);
    WithRankPrefix(SortDesc(items, rank), Kept(|items|), rank, k);
  }

  /** No entry left out of the selection has a greater value than an entry kept. */
  lemma TopTenLeftOutNoHigher<K, V>(items: seq<(K, V)>, rank: V -> int, e: (K, V))
    requires e in items && e !in TopTen(items, rank)
    ensures forall i :: 0 <= i < |TopTen(items, rank)| ==> rank(e.1) <= rank(TopTen(items, rank)[i].1)
  {
    var sorted := SortDesc(items, rank);
    var r := TopTen(items, rank);
    SortDescSorted(items, rank);
    assert e in multiset(sorted);
    var p :| 0 <= p < |sorted| && sorted[p] == e;
    assert p >= |r|;
  }

  /** Selected from a dictionary's items, the entries keep distinct keys and each is one of the items. */
  lemma TopTenDistinct<K, V>(items: seq<(K, V)>, rank: V -> int)
    requires DistinctKeys(items)
    ensures DistinctKeys(TopTen(items, rank))
    ensures forall e :: e in TopTen(items, rank) ==> e in items
  {
    var sorted := SortDesc(items, rank);
    SortDescDistinct(items, rank);
    forall e | e in TopTen(items, rank)
      ensures e in items
    {
      assert e in sorted;
      assert e in multiset(sorted);
    }
  }

  /** Sorting entries that are already non-increasing leaves them as they are, ties included. */
  lemma SortedInputUnchanged<K, V>(s: seq<(K, V)>, rank: V -> int)
    requires SortedDesc(s, rank)
    ensures SortDesc(s, rank) == s
  {
    SortDescUnique(s, s, rank);
  }

  /**
   Eleven countries with shares 40, 25, 15, 10, 5, 2, 1, 1, 0.5, 0.3 and 0.2
   percent (here in tenths of a percent): the selection drops the smallest,
   "K", and keeps the rest in descending order from "A", the tie G/H in
   input order.
   */
  lemma TopTenExample()
    ensures var items := [("A", 400), ("B", 250), ("C", 150), ("D", 100), ("E", 50), ("F", 20),
                          ("G", 10), ("H", 10), ("I", 5), ("J", 3), ("K", 2)];
      TopTen(items, (x: int) => x) == items[..10]
  {
    var items := [("A", 400), ("B", 250), ("C", 150), ("D", 100), ("E", 50), ("F", 20),
                  ("G", 10), ("H", 10), ("I", 5), ("J", 3), ("K", 2)];
    var rank := (x: int) => x;
    assert SortedDesc(items, rank);
    SortedInputUnchanged(items, rank);
  }
}
