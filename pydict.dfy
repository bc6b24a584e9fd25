/**
 An insertion-ordered dictionary with the semantics of Python's built-in
 `dict`: assigning to a new key appends it at the end of the iteration
 order, assigning to a key already present replaces its value and leaves
 its position where it was first inserted.
 */
module PyDict {

  /** `keys` is the iteration order (first insertion), `values` the current value of each key. */
  datatype Dict<K, V> = Dict(keys: seq<K>, values: map<K, V>)

  /** No key occurs twice in the sequence. */
  ghost predicate Distinct<K>(s: seq<K>)
  {
    forall i, j :: 0 <= i < j < |s| ==> s[i] != s[j]
  }

  /** The iteration order lists every key of the map exactly once. */
  ghost predicate WellFormed<K(!new), V>(d: Dict<K, V>)
  {
    && Distinct(d.keys)
    && (forall k :: k in d.values <==> k in d.keys)
  }

  /** `{ }` */
  function Empty<K(!new), V>(): (d: Dict<K, V>)
    ensures WellFormed(d) && d.keys == [] && d.values == map[]
  {
    Dict([], map[])
  }

  /** `d[k] = v` */
  function Put<K(==,!new), V>(d: Dict<K, V>, k: K, v: V): (r: Dict<K, V>)
    ensures r.values == d.values[k := v]
    // keys already present keep their position; a new key goes last
    ensures d.keys <= r.keys
    ensures WellFormed(d) ==> WellFormed(r) && (r.keys == d.keys <==> k in d.values)
    ensures WellFormed(d) && k !in d.values ==> r.keys == d.keys + [k]
  {
    if k in d.values then Dict(d.keys, d.values[k := v])
    else Dict(d.keys + [k], d.values[k := v])
  }

  /** `d.items()`: the (key, value) pairs in iteration order. */
  function Items<K(!new), V>(d: Dict<K, V>): (items: seq<(K, V)>)
    requires WellFormed(d)
    ensures |items| == |d.keys|
    ensures forall i :: 0 <= i < |items| ==> items[i].0 == d.keys[i] && items[i].0 in d.values
    ensures forall i :: 0 <= i < |items| ==> items[i].1 == d.values[items[i].0]
  {
    seq(|d.keys|, i requires 0 <= i < |d.keys| => (d.keys[i], d.values[d.keys[i]]))
  }

  /** The first components of a sequence of pairs. */
  function Firsts<K, V>(s: seq<(K, V)>): (ks: seq<K>)
    ensures |ks| == |s| && forall i :: 0 <= i < |s| ==> ks[i] == s[i].0
  {
    seq(|s|, i requires 0 <= i < |s| => s[i].0)
  }

  /** The second components of a sequence of pairs. */
  function Seconds<K, V>(s: seq<(K, V)>): (vs: seq<V>)
    ensures |vs| == |s| && forall i :: 0 <= i < |s| ==> vs[i] == s[i].1
  {
    seq(|s|, i requires 0 <= i < |s| => s[i].1)
  }

  /** `for k, v in s: d[k] = v`, as a function of the dictionary before the loop. */
  function PutAll<K(==,!new), V>(d: Dict<K, V>, s: seq<(K, V)>): (r: Dict<K, V>)
    decreases |s|
    ensures WellFormed(d) ==> WellFormed(r)
    ensures d.keys <= r.keys
  {
    if s == [] then d
    else
      var last := s[|s| - 1];
      Put(PutAll(d, s[..|s| - 1]), last.0, last.1)
  }

  lemma PutAllSnoc<K(!new), V>(d: Dict<K, V>, s: seq<(K, V)>, e: (K, V))
    ensures PutAll(d, s + [e]) == Put(PutAll(d, s), e.0, e.1)
  {
    assert (s + [e])[..|s|] == s;
  }

  /** The keys after the loop are the keys before it and the keys of the pairs. */
  lemma {:induction false} PutAllKeys<K(!new), V>(d: Dict<K, V>, s: seq<(K, V)>, k: K)
    ensures k in PutAll(d, s).values <==> k in d.values || k in Firsts(s)
  {
    if s != [] {
      PutAllKeys(d, s[..|s| - 1], k);
      assert Firsts(s) == Firsts(s[..|s| - 1]) + [s[|s| - 1].0];
    }
  }

  /** The key order after the first `n` pairs is a prefix of the key order after all of them. */
  lemma {:induction false} PutAllPrefixOrder<K(!new), V>(d: Dict<K, V>, s: seq<(K, V)>, n: nat)
    requires n <= |s|
    ensures PutAll(d, s[..n]).keys <= PutAll(d, s).keys
    decreases |s|
  {
    if n < |s| {
      var init := s[..|s| - 1];
      assert init[..n] == s[..n];
      PutAllPrefixOrder(d, init, n);
    } else {
      assert s[..n] == s;
    }
  }

  /**
   Keys come in the order of their first pair: a key that was present or
   that one of the first `n` pairs carries comes before a key that only a
   later pair brings.
   */
  lemma NewKeyOrder<K(!new), V>(d: Dict<K, V>, s: seq<(K, V)>, n: nat, k1: K, k2: K)
    requires WellFormed(d) && n <= |s|
    requires k1 in d.values || exists p :: 0 <= p < n && s[p].0 == k1
    requires k2 !in d.values && forall p :: 0 <= p < n ==> s[p].0 != k2
    requires exists q :: n <= q < |s| && s[q].0 == k2
    ensures exists a, b ::
              && 0 <= a < b < |PutAll(d, s).keys|
              && PutAll(d, s).keys[a] == k1 && PutAll(d, s).keys[b] == k2
  {
    var pre := s[..n];
    if k1 !in d.values {
      var p :| 0 <= p < n && s[p].0 == k1;
      assert Firsts(pre)[p] == k1;
    }
    PutAllKeys(d, pre, k1);
    assert k2 !in Firsts(pre);
    PutAllKeys(d, pre, k2);
    var q :| n <= q < |s| && s[q].0 == k2;
    assert Firsts(s)[q] == k2;
    PutAllKeys(d, s, k2);
    var before, after := PutAll(d, pre), PutAll(d, s);
    assert WellFormed(before) && WellFormed(after);
    assert k1 in before.keys && k2 !in before.keys && k2 in after.keys;
    PutAllPrefixOrder(d, s, n);
    OrderFromPrefix(before.keys, after.keys, k1, k2);
  }

  lemma OrderFromPrefix<K>(pre: seq<K>, ks: seq<K>, k1: K, k2: K)
    requires pre <= ks && k1 in pre && k2 !in pre && k2 in ks
    ensures exists a, b :: 0 <= a < b < |ks| && ks[a] == k1 && ks[b] == k2
  {
    var a :| 0 <= a < |pre| && pre[a] == k1;
    var b :| 0 <= b < |ks| && ks[b] == k2;
    assert forall i :: 0 <= i < |pre| ==> ks[i] == pre[i];
    assert b >= |pre|;
    assert ks[a] == k1;
  }

  /** A key takes the value of the last pair that carries it. */
  lemma {:induction false} LastWriteWins<K(!new), V>(d: Dict<K, V>, s: seq<(K, V)>, i: nat)
    requires i < |s|
    requires forall j :: i < j < |s| ==> s[j].0 != s[i].0
    ensures s[i].0 in PutAll(d, s).values && PutAll(d, s).values[s[i].0] == s[i].1
  {
    if i < |s| - 1 {
      LastWriteWins(d, s[..|s| - 1], i);
    }
  }

  /** A key that no pair carries keeps the value it had before. */
  lemma {:induction false} UntouchedKey<K(!new), V>(d: Dict<K, V>, s: seq<(K, V)>, k: K)
    requires k in d.values
    requires forall j :: 0 <= j < |s| ==> s[j].0 != k
    ensures k in PutAll(d, s).values && PutAll(d, s).values[k] == d.values[k]
  {
    if s != [] {
      UntouchedKey(d, s[..|s| - 1], k);
    }
  }

  /** Removing the most recently inserted key: the dictionary as it was before that key arrived. */
  function DropNewest<K(!new), V>(d: Dict<K, V>): (r: Dict<K, V>)
    requires WellFormed(d) && d.keys != []
    ensures WellFormed(r) && |r.keys| == |d.keys| - 1
    ensures Put(r, d.keys[|d.keys| - 1], d.values[d.keys[|d.keys| - 1]]) == d
  {
    var n := |d.keys| - 1;
    var r := Dict(d.keys[..n], d.values - {d.keys[n]});
    assert d.keys == r.keys + [d.keys[n]];
    assert d.keys[n] !in r.keys;
    assert r.values[d.keys[n] := d.values[d.keys[n]]] == d.values;
    r
  }

  lemma ItemsSnoc<K(!new), V>(d: Dict<K, V>)
    requires WellFormed(d) && d.keys != []
    ensures var k := d.keys[|d.keys| - 1];
      Items(d) == Items(DropNewest(d)) + [(k, d.values[k])]
  {
  }

  /** Reading back the items of a dictionary, in order, into a fresh dictionary gives it back. */
  lemma {:induction false} RoundTrip<K(!new), V>(d: Dict<K, V>)
    requires WellFormed(d)
    ensures PutAll(Empty(), Items(d)) == d
    decreases |d.keys|
  {
    if d.keys == [] {
      assert d.values == map[];
    } else {
      var k := d.keys[|d.keys| - 1];
      var prev := DropNewest(d);
      RoundTrip(prev);
      ItemsSnoc(d);
      PutAllSnoc(Empty(), Items(prev), (k, d.values[k]));
    }
  }
}
