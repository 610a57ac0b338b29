/** Separate chaining as values: a table layout is a sequence of buckets,
    each bucket an ordered sequence of (key, value) pairs.  The predicates
    and lemmas here state when a layout represents an abstract map, and how
    the table's in-place updates of one bucket keep that relation. */
module Buckets {
  import opened Options
  import opened Hashing

  /** A stored pair: a key and its value. */
  type Entry<V> = (string, V)

  /** No two pairs of `b` have the same key. */
  predicate DistinctKeys<V>(b: seq<Entry<V>>) {
    forall p, q :: 0 <= p < q < |b| ==> b[p].0 != b[q].0
  }

  /** The linear scan of a bucket: the position of the first pair whose key
      is `key`, or None when there is none. */
  function KeyIndex<V>(b: seq<Entry<V>>, key: string): (r: Option<nat>)
    ensures r.Some? ==> r.value < |b| && b[r.value].0 == key
    ensures r.Some? ==> forall p :: 0 <= p < r.value ==> b[p].0 != key
    ensures r.None? ==> forall p :: 0 <= p < |b| ==> b[p].0 != key
  {
    if b == [] then None
    else if b[0].0 == key then Some(0)
    else match KeyIndex(b[1..], key)
      case None => None
      case Some(j) => Some(j + 1)
  }

  /** `b` without its pair at position j, the others kept in order. */
  function SpliceOut<V>(b: seq<Entry<V>>, j: nat): (r: seq<Entry<V>>)
    requires j < |b|
    ensures |r| == |b| - 1
    ensures forall p :: 0 <= p < j ==> r[p] == b[p]
    ensures forall p :: j <= p < |r| ==> r[p] == b[p + 1]
  {
    b[..j] + b[j + 1..]
  }

  /** One bucket after storing `value` under `key`: the pair for `key` is
      replaced where it stands if there is one, otherwise the new pair is
      appended at the end. */
  function Put<V>(b: seq<Entry<V>>, key: string, value: V): seq<Entry<V>> {
    match KeyIndex(b, key)
    case Some(j) => b[j := (key, value)]
    case None => b + [(key, value)]
  }

  /** One bucket after removing `key`: the pair for `key`, if any, is spliced out. */
  function Delete<V>(b: seq<Entry<V>>, key: string): seq<Entry<V>> {
    match KeyIndex(b, key)
    case Some(j) => SpliceOut(b, j)
    case None => b
  }

  /** The first pair for `key` is at j: `Put` overwrites it there. */
  lemma PutFound<V>(b: seq<Entry<V>>, key: string, value: V, j: nat)
    requires j < |b| && b[j].0 == key && forall p :: 0 <= p < j ==> b[p].0 != key
    ensures KeyIndex(b, key) == Some(j)
    ensures Put(b, key, value) == b[j := (key, value)]
    ensures Delete(b, key) == SpliceOut(b, j)
  {
  }

  /** No pair for `key`: `Put` appends and `Delete` changes nothing. */
  lemma PutMissing<V>(b: seq<Entry<V>>, key: string, value: V)
    requires forall p :: 0 <= p < |b| ==> b[p].0 != key
    ensures KeyIndex(b, key) == None
    ensures Put(b, key, value) == b + [(key, value)]
    ensures Delete(b, key) == b
  {
  }

  /** The pairs of all buckets: bucket 0 first, then bucket 1, and so on,
      each bucket's pairs in their order within the bucket. */
  function Flatten<V>(bs: seq<seq<Entry<V>>>): seq<Entry<V>> {
    if bs == [] then [] else Flatten(bs[..|bs| - 1]) + bs[|bs| - 1]
  }

  /** Replacing one bucket changes the number of stored pairs by the change in its length. */
  lemma FlattenReplaceLength<V>(bs: seq<seq<Entry<V>>>, i: nat, b: seq<Entry<V>>)
    requires i < |bs|
    ensures |Flatten(bs[i := b])| + |bs[i]| == |Flatten(bs)| + |b|
  {
    FlattenReplace(bs, i, b);
  }

  /** Replacing one bucket replaces its pairs, and only those, in the flattened table. */
  lemma {:induction false} FlattenReplace<V>(bs: seq<seq<Entry<V>>>, i: nat, b: seq<Entry<V>>)
    requires i < |bs|
    ensures multiset(Flatten(bs[i := b])) + multiset(bs[i]) == multiset(Flatten(bs)) + multiset(b)
    ensures |Flatten(bs[i := b])| + |bs[i]| == |Flatten(bs)| + |b|
  {
    var n := |bs| - 1;
    if i == n {
      assert bs[i := b][..n] == bs[..n];
    } else {
      assert bs[i := b][..n] == bs[..n][i := b];
      assert Flatten(bs[i := b]) == Flatten(bs[..n][i := b]) + bs[n];
      assert Flatten(bs) == Flatten(bs[..n]) + bs[n];
      assert bs[..n][i] == bs[i];
      FlattenReplace(bs[..n], i, b);
      calc {
        multiset(Flatten(bs[i := b])) + multiset(bs[i]);
        multiset(Flatten(bs[..n][i := b])) + multiset(bs[n]) + multiset(bs[..n][i]);
        multiset(Flatten(bs[..n][i := b])) + multiset(bs[..n][i]) + multiset(bs[n]);
        multiset(Flatten(bs[..n])) + multiset(b) + multiset(bs[n]);
        multiset(Flatten(bs[..n])) + multiset(bs[n]) + multiset(b);
        multiset(Flatten(bs)) + multiset(b);
      }
    }
  }

  lemma MultisetCancel<T>(a: multiset<T>, b: multiset<T>, c: multiset<T>)
    requires a + c == b + c
    ensures a == b
  {
    forall x
      ensures a[x] == b[x]
    {
      assert (a + c)[x] == (b + c)[x];
    }
  }

  /** Appending a pair to one bucket adds exactly that pair to the flattened table. */
  lemma FlattenAppend<V>(bs: seq<seq<Entry<V>>>, i: nat, e: Entry<V>)
    requires i < |bs|
    ensures multiset(Flatten(bs[i := bs[i] + [e]])) == multiset(Flatten(bs)) + multiset{e}
  {
    FlattenReplace(bs, i, bs[i] + [e]);
    assert multiset(bs[i] + [e]) == multiset(bs[i]) + multiset{e};
    MultisetCancel(multiset(Flatten(bs[i := bs[i] + [e]])), multiset(Flatten(bs)) + multiset{e}, multiset(bs[i]));
  }

  /** A table whose buckets are all empty holds no pairs. */
  lemma {:induction false} FlattenAllEmpty<V>(bs: seq<seq<Entry<V>>>)
    requires forall i :: 0 <= i < |bs| ==> bs[i] == []
    ensures Flatten(bs) == []
  {
    if bs != [] {
      FlattenAllEmpty(bs[..|bs| - 1]);
    }
  }

  /** A pair is in the flattened table exactly when it is in some bucket. */
  lemma {:induction false} FlattenMember<V>(bs: seq<seq<Entry<V>>>, e: Entry<V>)
    ensures e in Flatten(bs) <==> exists i :: 0 <= i < |bs| && e in bs[i]
  {
    if bs != [] {
      var n := |bs| - 1;
      FlattenMember(bs[..n], e);
      if e in Flatten(bs[..n]) {
        var i :| 0 <= i < n && e in bs[..n][i];
        assert e in bs[i];
      }
      if exists i :: 0 <= i < |bs| && e in bs[i] {
        var i :| 0 <= i < |bs| && e in bs[i];
        if i < n {
          assert e in bs[..n][i];
        }
      }
    }
  }

  /** Scanning one more bucket appends its pairs. */
  lemma FlattenSnoc<V>(bs: seq<seq<Entry<V>>>, i: nat)
    requires i < |bs|
    ensures Flatten(bs[..i + 1]) == Flatten(bs[..i]) + bs[i]
  {
    assert bs[..i + 1][..i] == bs[..i];
  }

  /** If every pair of bucket i hashes to i and no bucket repeats a key,
      no key occurs twice in the whole table. */
  lemma {:induction false} FlattenDistinct<V>(bs: seq<seq<Entry<V>>>, cap: nat)
    requires cap > 0
    requires forall i, j :: 0 <= i < |bs| && 0 <= j < |bs[i]| ==> RollingHash(bs[i][j].0, cap) == i
    requires Chained(bs)
    ensures DistinctKeys(Flatten(bs))
  {
    if bs != [] {
      var n := |bs| - 1;
      var pre := bs[..n];
      FlattenDistinct(pre, cap);
      var f, all := Flatten(pre), Flatten(bs);
      assert all == f + bs[n];
      forall p, q | 0 <= p < q < |all|
        ensures all[p].0 != all[q].0
      {
        if p < |f| <= q {
          var e := f[p];
          FlattenMember(pre, e);
          var i :| 0 <= i < n && e in pre[i];
          var j :| 0 <= j < |bs[i]| && bs[i][j] == e;
          assert all[q] == bs[n][q - |f|];
        } else if |f| <= p {
          assert all[p] == bs[n][p - |f|] && all[q] == bs[n][q - |f|];
        }
      }
    }
  }

  /** Scan order: the pairs of bucket i start at the position where the
      pairs of buckets 0 .. i-1 end, and keep their in-bucket order. */
  lemma {:induction false} FlattenIndex<V>(bs: seq<seq<Entry<V>>>, i: nat, j: nat)
    requires i < |bs| && j < |bs[i]|
    ensures |Flatten(bs[..i])| + |bs[i]| == |Flatten(bs[..i + 1])| <= |Flatten(bs)|
    ensures Flatten(bs)[|Flatten(bs[..i])| + j] == bs[i][j]
  {
    var n := |bs| - 1;
    assert bs[..i + 1][..i] == bs[..i];
    if i < n {
      assert bs[..n][..i] == bs[..i];
      assert bs[..n][..i + 1] == bs[..i + 1];
      FlattenIndex(bs[..n], i, j);
    } else {
      assert bs[..i + 1] == bs;
    }
  }

  /** Every pair sits in the bucket its key hashes to under the bucket count. */
  ghost predicate Placed<V>(bs: seq<seq<Entry<V>>>) {
    && |bs| > 0
    && forall i, j :: 0 <= i < |bs| && 0 <= j < |bs[i]| ==> RollingHash(bs[i][j].0, |bs|) == i
  }

  /** No bucket holds two pairs with the same key. */
  ghost predicate Chained<V>(bs: seq<seq<Entry<V>>>) {
    forall i :: 0 <= i < |bs| ==> DistinctKeys(bs[i])
  }

  /** Every stored pair is an entry of `contents`. */
  ghost predicate Stored<V>(bs: seq<seq<Entry<V>>>, contents: map<string, V>) {
    forall i, j :: 0 <= i < |bs| && 0 <= j < |bs[i]| ==>
      bs[i][j].0 in contents && contents[bs[i][j].0] == bs[i][j].1
  }

  /** Every entry of `contents` is stored in its key's bucket. */
  ghost predicate Covered<V>(bs: seq<seq<Entry<V>>>, contents: map<string, V>)
    requires |bs| > 0
  {
    forall k :: k in contents ==> (k, contents[k]) in bs[RollingHash(k, |bs|)]
  }

  /** `bs` is a well-formed chained table holding exactly the map `contents`. */
  ghost predicate Layout<V>(bs: seq<seq<Entry<V>>>, contents: map<string, V>) {
    Placed(bs) && Chained(bs) && Stored(bs, contents) && Covered(bs, contents)
  }

  /** Fresh empty buckets represent the empty map. */
  lemma EmptyLayout<V>(bs: seq<seq<Entry<V>>>)
    requires |bs| > 0
    requires forall i :: 0 <= i < |bs| ==> bs[i] == []
    ensures Layout(bs, map[])
    ensures Flatten(bs) == []
  {
    FlattenAllEmpty(bs);
  }

  /** Scanning the key's own bucket decides membership and finds the value. */
  lemma LookupInLayout<V>(bs: seq<seq<Entry<V>>>, contents: map<string, V>, key: string)
    requires Layout(bs, contents)
    ensures var b := bs[RollingHash(key, |bs|)];
      match KeyIndex(b, key)
      case None => key !in contents
      case Some(j) => key in contents && contents[key] == b[j].1
  {
    var b := bs[RollingHash(key, |bs|)];
    if key in contents {
      assert (key, contents[key]) in b;
    }
  }

  /** The table lists every entry of the map once and nothing else. */
  lemma LayoutScan<V>(bs: seq<seq<Entry<V>>>, contents: map<string, V>)
    requires Layout(bs, contents)
    ensures forall e :: e in Flatten(bs) <==> e.0 in contents && contents[e.0] == e.1
    ensures DistinctKeys(Flatten(bs))
  {
    FlattenDistinct(bs, |bs|);
    forall e
      ensures e in Flatten(bs) <==> e.0 in contents && contents[e.0] == e.1
    {
      FlattenMember(bs, e);
      if e.0 in contents && contents[e.0] == e.1 {
        assert e in bs[RollingHash(e.0, |bs|)];
      }
    }
  }

  /** A pair met in the scan of the table is an entry of the map. */
  lemma EntryOfScan<V>(bs: seq<seq<Entry<V>>>, contents: map<string, V>, e: Entry<V>)
    requires Layout(bs, contents) && e in Flatten(bs)
    ensures e.0 in contents && contents[e.0] == e.1
  {
    LayoutScan(bs, contents);
  }

  /** Every entry of the map is met in the scan of the table. */
  lemma ScanOfEntry<V>(bs: seq<seq<Entry<V>>>, contents: map<string, V>, k: string)
    requires Layout(bs, contents) && k in contents
    ensures (k, contents[k]) in Flatten(bs)
  {
    LayoutScan(bs, contents);
  }

  /** Scanning bucket i to its end extends the scan of buckets 0 .. i-1 to 0 .. i. */
  lemma ScanNext<V>(bs: seq<seq<Entry<V>>>, i: nat, b: seq<Entry<V>>)
    requires i < |bs| && b == bs[i]
    ensures Flatten(bs[..i + 1]) == Flatten(bs[..i]) + b[..|b|]
  {
    assert b[..|b|] == b;
    FlattenSnoc(bs, i);
  }

  /** The scan of every bucket is the whole table. */
  lemma ScanAll<V>(bs: seq<seq<Entry<V>>>)
    ensures Flatten(bs[..|bs|]) == Flatten(bs)
  {
    assert bs[..|bs|] == bs;
  }

  /** The keys of the scan, position by position, are the map's keys, once each. */
  lemma KeysOfScan<V>(bs: seq<seq<Entry<V>>>, contents: map<string, V>, ks: seq<string>)
    requires Layout(bs, contents)
    requires |ks| == |Flatten(bs[..|bs|])|
    requires forall p :: 0 <= p < |ks| ==> ks[p] == Flatten(bs[..|bs|])[p].0
    ensures |ks| == |Flatten(bs)| && forall p :: 0 <= p < |ks| ==> ks[p] == Flatten(bs)[p].0
    ensures forall k :: k in ks <==> k in contents
    ensures forall p, q :: 0 <= p < q < |ks| ==> ks[p] != ks[q]
  {
    ScanAll(bs);
    var s := Flatten(bs);
    LayoutScan(bs, contents);
    forall k
      ensures k in ks <==> k in contents
    {
      if k in contents {
        ScanOfEntry(bs, contents, k);
        var p :| 0 <= p < |s| && s[p] == (k, contents[k]);
        assert ks[p] == k;
      }
      if k in ks {
        var p :| 0 <= p < |ks| && ks[p] == k;
        assert s[p] in s;
        EntryOfScan(bs, contents, s[p]);
      }
    }
  }

  /** The values of the scan, position by position, are the map's values of
      the scan's keys, and every value of the map is among them. */
  lemma ValuesOfScan<V>(bs: seq<seq<Entry<V>>>, contents: map<string, V>, vs: seq<V>)
    requires Layout(bs, contents)
    requires |vs| == |Flatten(bs)| && forall p :: 0 <= p < |vs| ==> vs[p] == Flatten(bs)[p].1
    ensures forall p :: 0 <= p < |vs| ==> Flatten(bs)[p].0 in contents && vs[p] == contents[Flatten(bs)[p].0]
    ensures forall k :: k in contents ==> contents[k] in vs
  {
    var s := Flatten(bs);
    LayoutScan(bs, contents);
    forall p | 0 <= p < |vs|
      ensures s[p].0 in contents && vs[p] == contents[s[p].0]
    {
      assert s[p] in s;
    }
    forall k | k in contents
      ensures contents[k] in vs
    {
      ScanOfEntry(bs, contents, k);
      var p :| 0 <= p < |s| && s[p] == (k, contents[k]);
      assert vs[p] == contents[k];
    }
  }

  /** Scan order pinned down: the pairs of bucket i occupy the positions
      starting where the pairs of buckets 0 .. i-1 end, in bucket order. */
  /** Replacing bucket h by pairs whose keys all hash to h keeps every pair placed. */
  lemma ReplacePlaced<V>(bs: seq<seq<Entry<V>>>, h: nat, b: seq<Entry<V>>)
    requires Placed(bs) && h < |bs|
    requires forall p :: 0 <= p < |b| ==> RollingHash(b[p].0, |bs|) == h
    ensures Placed(bs[h := b])
  {
  }

  /** Replacing bucket h by a bucket without repeated keys keeps keys unique per bucket. */
  lemma ReplaceChained<V>(bs: seq<seq<Entry<V>>>, h: nat, b: seq<Entry<V>>)
    requires Chained(bs) && h < |bs| && DistinctKeys(b)
    ensures Chained(bs[h := b])
  {
  }

  lemma OverwriteStored<V>(bs: seq<seq<Entry<V>>>, contents: map<string, V>, key: string, value: V, h: nat, j: nat)
    requires Placed(bs) && Chained(bs) && Stored(bs, contents)
    requires h == RollingHash(key, |bs|) && j < |bs[h]| && bs[h][j].0 == key
    ensures Stored(bs[h := bs[h][j := (key, value)]], contents[key := value])
  {
    var b := bs[h][j := (key, value)];
    var bs': seq<seq<Entry<V>>>, c': map<string, V> := bs[h := b], contents[key := value];
    forall i: int, p: int | 0 <= i < |bs'| && 0 <= p < |bs'[i]|
      ensures bs'[i][p].0 in c' && c'[bs'[i][p].0] == bs'[i][p].1
    {
      if i != h || p != j {
        assert bs'[i][p] == bs[i][p];
        assert bs[i][p].0 != key;
      }
    }
  }

  lemma OverwriteCovered<V>(bs: seq<seq<Entry<V>>>, contents: map<string, V>, key: string, value: V, h: nat, j: nat)
    requires |bs| > 0 && Covered(bs, contents)
    requires h == RollingHash(key, |bs|) && j < |bs[h]| && bs[h][j].0 == key
    requires DistinctKeys(bs[h])
    ensures Covered(bs[h := bs[h][j := (key, value)]], contents[key := value])
  {
    var b := bs[h][j := (key, value)];
    var bs': seq<seq<Entry<V>>>, c': map<string, V> := bs[h := b], contents[key := value];
    forall k | k in c'
      ensures (k, c'[k]) in bs'[RollingHash(k, |bs'|)]
    {
      if k == key {
        assert b[j] == (k, c'[k]);
      } else if RollingHash(k, |bs|) == h {
        var p :| 0 <= p < |bs[h]| && bs[h][p] == (k, contents[k]);
        assert b[p] == (k, c'[k]);
      }
    }
  }

  /** Overwriting the pair found for `key` in its bucket stores `value`
      under `key` and changes no other entry. */
  lemma LayoutOverwrite<V>(bs: seq<seq<Entry<V>>>, contents: map<string, V>, key: string, value: V, j: nat)
    requires Layout(bs, contents)
    requires j < |bs[RollingHash(key, |bs|)]| && bs[RollingHash(key, |bs|)][j].0 == key
    ensures key in contents
    ensures var h := RollingHash(key, |bs|);
      Layout(bs[h := bs[h][j := (key, value)]], contents[key := value])
    ensures |contents[key := value]| == |contents|
  {
    var h := RollingHash(key, |bs|);
    var b := bs[h][j := (key, value)];
    assert bs[h][j] in bs[h];
    assert contents[key := value].Keys == contents.Keys;
    ReplacePlaced(bs, h, b);
    assert forall p :: 0 <= p < |b| ==> b[p].0 == bs[h][p].0;
    ReplaceChained(bs, h, b);
    OverwriteStored(bs, contents, key, value, h, j);
    OverwriteCovered(bs, contents, key, value, h, j);
  }

  lemma AppendStored<V>(bs: seq<seq<Entry<V>>>, contents: map<string, V>, key: string, value: V, h: nat)
    requires Placed(bs) && Stored(bs, contents)
    requires h == RollingHash(key, |bs|)
    requires forall p :: 0 <= p < |bs[h]| ==> bs[h][p].0 != key
    ensures Stored(bs[h := bs[h] + [(key, value)]], contents[key := value])
  {
  }

  lemma AppendCovered<V>(bs: seq<seq<Entry<V>>>, contents: map<string, V>, key: string, value: V, h: nat)
    requires |bs| > 0 && Covered(bs, contents)
    requires h == RollingHash(key, |bs|)
    ensures Covered(bs[h := bs[h] + [(key, value)]], contents[key := value])
  {
    var b := bs[h] + [(key, value)];
    var bs': seq<seq<Entry<V>>>, c': map<string, V> := bs[h := b], contents[key := value];
    forall k | k in c'
      ensures (k, c'[k]) in bs'[RollingHash(k, |bs'|)]
    {
      if k == key {
        assert b[|b| - 1] == (k, c'[k]);
      } else if RollingHash(k, |bs|) == h {
        assert (k, contents[k]) in bs[h];
      }
    }
  }

  /** Appending a pair for an absent key to its bucket adds exactly that entry. */
  lemma LayoutAppend<V>(bs: seq<seq<Entry<V>>>, contents: map<string, V>, key: string, value: V)
    requires Layout(bs, contents)
    requires forall p :: 0 <= p < |bs[RollingHash(key, |bs|)]| ==> bs[RollingHash(key, |bs|)][p].0 != key
    ensures key !in contents
    ensures var h := RollingHash(key, |bs|);
      Layout(bs[h := bs[h] + [(key, value)]], contents[key := value])
    ensures |contents[key := value]| == |contents| + 1
  {
    var h := RollingHash(key, |bs|);
    var b := bs[h] + [(key, value)];
    ReplacePlaced(bs, h, b);
    ReplaceChained(bs, h, b);
    AppendStored(bs, contents, key, value, h);
    AppendCovered(bs, contents, key, value, h);
  }

  lemma RemoveStored<V>(bs: seq<seq<Entry<V>>>, contents: map<string, V>, key: string, h: nat, j: nat)
    requires Placed(bs) && Chained(bs) && Stored(bs, contents)
    requires h == RollingHash(key, |bs|) && j < |bs[h]| && bs[h][j].0 == key
    ensures Stored(bs[h := SpliceOut(bs[h], j)], contents - {key})
  {
    var b := SpliceOut(bs[h], j);
    var bs': seq<seq<Entry<V>>>, c': map<string, V> := bs[h := b], contents - {key};
    forall i: int, p: int | 0 <= i < |bs'| && 0 <= p < |bs'[i]|
      ensures bs'[i][p].0 in c' && c'[bs'[i][p].0] == bs'[i][p].1
    {
      if i == h {
        var q := if p < j then p else p + 1;
        assert bs'[i][p] == bs[h][q];
      } else {
        assert bs'[i][p] == bs[i][p];
      }
    }
  }

  lemma RemoveCovered<V>(bs: seq<seq<Entry<V>>>, contents: map<string, V>, key: string, h: nat, j: nat)
    requires |bs| > 0 && Covered(bs, contents)
    requires h == RollingHash(key, |bs|) && j < |bs[h]| && bs[h][j].0 == key
    ensures Covered(bs[h := SpliceOut(bs[h], j)], contents - {key})
  {
    var b := SpliceOut(bs[h], j);
    var bs': seq<seq<Entry<V>>>, c': map<string, V> := bs[h := b], contents - {key};
    forall k | k in c'
      ensures (k, c'[k]) in bs'[RollingHash(k, |bs'|)]
    {
      if RollingHash(k, |bs|) == h {
        var p :| 0 <= p < |bs[h]| && bs[h][p] == (k, contents[k]);
        if p < j {
          assert b[p] == (k, c'[k]);
        } else {
          assert b[p - 1] == (k, c'[k]);
        }
      }
    }
  }

  lemma RemoveKeyCard<V>(contents: map<string, V>, key: string)
    requires key in contents
    ensures |contents - {key}| == |contents| - 1
  {
    assert (contents - {key}).Keys == contents.Keys - {key};
  }

  lemma SpliceOutDistinct<V>(b: seq<Entry<V>>, j: nat)
    requires j < |b| && DistinctKeys(b)
    ensures DistinctKeys(SpliceOut(b, j))
  {
    var r := SpliceOut(b, j);
    forall p, q | 0 <= p < q < |r|
      ensures r[p].0 != r[q].0
    {
      var p', q' := if p < j then p else p + 1, if q < j then q else q + 1;
      assert r[p] == b[p'] && r[q] == b[q'];
    }
  }

  /** Splicing the pair for `key` out of its bucket removes exactly that entry
      and keeps the bucket's other pairs in order. */
  lemma LayoutRemove<V>(bs: seq<seq<Entry<V>>>, contents: map<string, V>, key: string, j: nat)
    requires Layout(bs, contents)
    requires j < |bs[RollingHash(key, |bs|)]| && bs[RollingHash(key, |bs|)][j].0 == key
    ensures key in contents
    ensures var h := RollingHash(key, |bs|);
      Layout(bs[h := SpliceOut(bs[h], j)], contents - {key})
    ensures |contents - {key}| == |contents| - 1
  {
    var h := RollingHash(key, |bs|);
    var b := SpliceOut(bs[h], j);
    assert bs[h][j] in bs[h];
    RemoveKeyCard(contents, key);
    forall p | 0 <= p < |b|
      ensures RollingHash(b[p].0, |bs|) == h
    {
      var q := if p < j then p else p + 1;
      assert b[p] == bs[h][q];
    }
    ReplacePlaced(bs, h, b);
    SpliceOutDistinct(bs[h], j);
    ReplaceChained(bs, h, b);
    RemoveStored(bs, contents, key, h, j);
    RemoveCovered(bs, contents, key, h, j);
  }
}
