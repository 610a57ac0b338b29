/** The resize as a value: every pair of the old buckets, taken in scan
    order, is appended to the bucket its key hashes to under twice the old
    bucket count.  `Rehashed(ob)` is that result, and the lemmas here show it
    lays out the same map as `ob`. */
module Rehash {
  import opened Hashing
  import opened Buckets

  /** `nb` after appending `e` to the bucket its key hashes to. */
  function Reinsert<V>(nb: seq<seq<Entry<V>>>, e: Entry<V>): (r: seq<seq<Entry<V>>>)
    requires |nb| > 0
    ensures |r| == |nb|
  {
    var t := RollingHash(e.0, |nb|);
    nb[t := nb[t] + [e]]
  }

  /** `nb` after reinserting the pairs of `es` one by one, first to last. */
  function ReinsertAll<V>(nb: seq<seq<Entry<V>>>, es: seq<Entry<V>>): (r: seq<seq<Entry<V>>>)
    requires |nb| > 0
    ensures |r| == |nb|
  {
    if es == [] then nb else Reinsert(ReinsertAll(nb, es[..|es| - 1]), es[|es| - 1])
  }

  /** `n` empty buckets. */
  function EmptyBuckets<V>(n: nat): (r: seq<seq<Entry<V>>>)
    ensures |r| == n && forall t :: 0 <= t < n ==> r[t] == []
  {
    seq(n, _ => [])
  }

  /** The buckets after a resize of `ob`. */
  function Rehashed<V>(ob: seq<seq<Entry<V>>>): seq<seq<Entry<V>>>
    requires |ob| > 0
  {
    ReinsertAll(EmptyBuckets(2 * |ob|), Flatten(ob))
  }

  /** Reinserting one more pair is one more `Reinsert`. */
  lemma ReinsertAllSnoc<V>(nb: seq<seq<Entry<V>>>, es: seq<Entry<V>>, e: Entry<V>)
    requires |nb| > 0
    ensures ReinsertAll(nb, es + [e]) == Reinsert(ReinsertAll(nb, es), e)
  {
    assert (es + [e])[..|es|] == es;
  }

  /** Reinserting a prefix of `b` one pair further is one more `Reinsert`. */
  lemma ReinsertNext<V>(nb: seq<seq<Entry<V>>>, done: seq<Entry<V>>, b: seq<Entry<V>>, j: nat)
    requires |nb| > 0 && j < |b|
    ensures ReinsertAll(nb, done + b[..j + 1]) == Reinsert(ReinsertAll(nb, done + b[..j]), b[j])
  {
    assert done + b[..j + 1] == (done + b[..j]) + [b[j]];
    ReinsertAllSnoc(nb, done + b[..j], b[j]);
  }

  /** Reinsertion puts every pair in the bucket its key hashes to. */
  lemma {:induction false} ReinsertAllPlaced<V>(nb: seq<seq<Entry<V>>>, es: seq<Entry<V>>)
    requires Placed(nb)
    ensures Placed(ReinsertAll(nb, es))
  {
    if es != [] {
      var r := ReinsertAll(nb, es[..|es| - 1]);
      var e := es[|es| - 1];
      var t := RollingHash(e.0, |nb|);
      ReinsertAllPlaced(nb, es[..|es| - 1]);
      ReplacePlaced(r, t, r[t] + [e]);
    }
  }

  /** Reinsertion adds exactly the pairs of `es` to the table. */
  lemma {:induction false} ReinsertAllFlatten<V>(nb: seq<seq<Entry<V>>>, es: seq<Entry<V>>)
    requires |nb| > 0
    ensures multiset(Flatten(ReinsertAll(nb, es))) == multiset(Flatten(nb)) + multiset(es)
    ensures |Flatten(ReinsertAll(nb, es))| == |Flatten(nb)| + |es|
  {
    if es != [] {
      var init, e := es[..|es| - 1], es[|es| - 1];
      var r: seq<seq<Entry<V>>> := ReinsertAll(nb, init);
      var t := RollingHash(e.0, |nb|);
      ReinsertAllFlatten(nb, init);
      FlattenAppend(r, t, e);
      FlattenReplace(r, t, r[t] + [e]);
      assert es == init + [e];
    }
  }

  /** Reinsertion only appends: what a bucket held it still holds, and each
      pair of `es` ends up in the bucket its key hashes to. */
  lemma {:induction false} ReinsertAllFinds<V>(nb: seq<seq<Entry<V>>>, es: seq<Entry<V>>)
    requires |nb| > 0
    ensures forall t, x :: 0 <= t < |nb| && x in nb[t] ==> x in ReinsertAll(nb, es)[t]
    ensures forall e :: e in es ==> e in ReinsertAll(nb, es)[RollingHash(e.0, |nb|)]
  {
    if es != [] {
      var init, e := es[..|es| - 1], es[|es| - 1];
      var r: seq<seq<Entry<V>>> := ReinsertAll(nb, init);
      var t := RollingHash(e.0, |nb|);
      ReinsertAllFinds(nb, init);
      assert Reinsert(r, e)[t] == r[t] + [e];
      forall x | x in es
        ensures x in ReinsertAll(nb, es)[RollingHash(x.0, |nb|)]
      {
        if x != e {
          var p :| 0 <= p < |es| && es[p] == x;
          assert init[p] == x;
        }
      }
    }
  }

  /** A bucket without repeated keys stays so when a pair with a new key is appended. */
  lemma SnocDistinct<V>(b: seq<Entry<V>>, e: Entry<V>)
    requires DistinctKeys(b) && forall x :: x in b ==> x.0 != e.0
    ensures DistinctKeys(b + [e])
  {
    var b' := b + [e];
    forall p, q | 0 <= p < q < |b'|
      ensures b'[p].0 != b'[q].0
    {
      if q == |b| {
        assert b'[p] in b;
      }
    }
  }

  /** Reinserting pairs whose keys are all distinct, from each other and
      from the keys already stored, keeps keys unique per bucket. */
  lemma {:induction false} ReinsertAllChained<V>(nb: seq<seq<Entry<V>>>, es: seq<Entry<V>>)
    requires |nb| > 0 && Chained(nb) && DistinctKeys(Flatten(nb) + es)
    ensures Chained(ReinsertAll(nb, es))
  {
    if es != [] {
      var init, e := es[..|es| - 1], es[|es| - 1];
      var r: seq<seq<Entry<V>>> := ReinsertAll(nb, init);
      var t := RollingHash(e.0, |nb|);
      var all := Flatten(nb) + es;
      assert Flatten(nb) + init == all[..|all| - 1];
      ReinsertAllChained(nb, init);
      ReinsertAllFlatten(nb, init);
      forall x: Entry<V> | x in r[t]
        ensures x.0 != e.0
      {
        FlattenMember(r, x);
        assert x in multiset(Flatten(r));
        assert x in multiset(Flatten(nb) + init);
        var p :| 0 <= p < |all| - 1 && all[p] == x;
        assert all[|all| - 1] == e;
      }
      SnocDistinct(r[t], e);
      ReplaceChained(r, t, r[t] + [e]);
    }
  }

  /** A resize neither loses nor adds a pair. */
  lemma RehashedPairs<V>(ob: seq<seq<Entry<V>>>)
    requires |ob| > 0
    ensures multiset(Flatten(Rehashed(ob))) == multiset(Flatten(ob))
    ensures |Flatten(Rehashed(ob))| == |Flatten(ob)|
  {
    var nb := EmptyBuckets<V>(2 * |ob|);
    FlattenAllEmpty(nb);
    ReinsertAllFlatten(nb, Flatten(ob));
  }

  /** Every pair of the rehashed table is a pair of `ob`. */
  lemma RehashedFrom<V>(ob: seq<seq<Entry<V>>>, x: Entry<V>)
    requires |ob| > 0 && x in Flatten(Rehashed(ob))
    ensures x in Flatten(ob)
  {
    RehashedPairs(ob);
    assert x in multiset(Flatten(Rehashed(ob)));
  }

  /** Every pair of the rehashed table sits in the bucket its key hashes to. */
  lemma RehashedPlaced<V>(ob: seq<seq<Entry<V>>>)
    requires |ob| > 0
    ensures Placed(Rehashed(ob))
  {
    var nb := EmptyBuckets<V>(2 * |ob|);
    EmptyLayout(nb);
    ReinsertAllPlaced(nb, Flatten(ob));
  }

  /** No bucket of the rehashed table repeats a key. */
  lemma RehashedChained<V>(ob: seq<seq<Entry<V>>>, contents: map<string, V>)
    requires Layout(ob, contents)
    ensures Chained(Rehashed(ob))
  {
    var nb := EmptyBuckets<V>(2 * |ob|);
    EmptyLayout(nb);
    LayoutScan(ob, contents);
    assert Flatten(nb) + Flatten(ob) == Flatten(ob);
    ReinsertAllChained(nb, Flatten(ob));
  }

  /** Every pair of the rehashed table is an entry of the map `ob` holds. */
  lemma RehashedStored<V>(ob: seq<seq<Entry<V>>>, contents: map<string, V>)
    requires Layout(ob, contents)
    ensures Stored(Rehashed(ob), contents)
  {
    var r: seq<seq<Entry<V>>> := Rehashed(ob);
    forall i: int, j: int | 0 <= i < |r| && 0 <= j < |r[i]|
      ensures r[i][j].0 in contents && contents[r[i][j].0] == r[i][j].1
    {
      var x := r[i][j];
      assert x in r[i];
      FlattenMember(r, x);
      RehashedFrom(ob, x);
      EntryOfScan(ob, contents, x);
    }
  }

  /** Every entry the table `ob` holds is in its bucket of the rehashed table. */
  lemma RehashedCovered<V>(ob: seq<seq<Entry<V>>>, contents: map<string, V>)
    requires Layout(ob, contents)
    ensures Covered(Rehashed(ob), contents)
  {
    LayoutScan(ob, contents);
    ReinsertAllFinds(EmptyBuckets<V>(2 * |ob|), Flatten(ob));
  }

  /** A resize keeps the map: the rehashed table lays out the same entries,
      holds the same multiset of pairs, and each pair sits in the bucket its
      key hashes to under the doubled count. */
  lemma RehashedLayout<V>(ob: seq<seq<Entry<V>>>, contents: map<string, V>)
    requires Layout(ob, contents)
    ensures |Rehashed(ob)| == 2 * |ob|
    ensures Layout(Rehashed(ob), contents)
    ensures multiset(Flatten(Rehashed(ob))) == multiset(Flatten(ob))
    ensures |Flatten(Rehashed(ob))| == |Flatten(ob)|
  {
    RehashedPlaced(ob);
    RehashedChained(ob, contents);
    RehashedStored(ob, contents);
    RehashedCovered(ob, contents);
    RehashedPairs(ob);
  }

  /** Doubling splits each bucket in two: a pair in new bucket t came from
      old bucket t mod the old count. */
  lemma RehashedSplits<V>(ob: seq<seq<Entry<V>>>, contents: map<string, V>, t: nat, p: nat)
    requires Layout(ob, contents)
    requires t < |Rehashed(ob)| && p < |Rehashed(ob)[t]|
    ensures Rehashed(ob)[t][p] in ob[t % |ob|]
  {
    RehashedLayout(ob, contents);
    var r: seq<seq<Entry<V>>> := Rehashed(ob);
    var x := r[t][p];
    FlattenMember(r, x);
    RehashedFrom(ob, x);
    FlattenMember(ob, x);
    var i :| 0 <= i < |ob| && x in ob[i];
    DoublingSplitsBucket(x.0, |ob|);
  }
}
