/** The string-keyed hash table with separate chaining and doubling growth.
    Its state is the bucket count, the stored-key count and the bucket
    array, updated in place; the ghost field `Contents` is the map the table
    stands for, and `Valid()` ties the two together. */
module HashMaps {
  import opened Options
  import opened Hashing
  import opened Buckets
  import opened Rehash

  class HashMap<V(!new)> {
    /** The number of buckets. */
    var capacity: nat
    /** The load factor, kept as the fraction loadNum / loadDen. */
    const loadNum: nat
    const loadDen: nat
    /** The number of stored keys. */
    var size: nat
    /** Bucket i holds, in insertion order, the pairs whose key hashes to i. */
    var buckets: array<seq<Entry<V>>>
    /** The buckets' contents as a value. */
    ghost var Table: seq<seq<Entry<V>>>
    /** The map the table stands for. */
    ghost var Contents: map<string, V>

    /** The table's invariant: one bucket per unit of capacity, the buckets
        lay out exactly `Contents`, and `size` counts both its keys and the
        stored pairs. */
    ghost predicate Valid()
      reads this, buckets
    {
      && 0 < loadDen
      && buckets.Length == capacity
      && buckets[..] == Table
      && Layout(Table, Contents)
      && size == |Contents|
      && size == |Flatten(Table)|
    }

    /** Whether `n` keys spread over `cap` buckets exceed the load factor,
        that is, whether n / cap > loadNum / loadDen. */
    predicate Overloaded(n: nat, cap: nat) {
      n * loadDen > cap * loadNum
    }

    /** The stored pairs in the order an enumeration visits them: by bucket
        index, then by position in the bucket. */
    ghost function ScanOrder(): seq<Entry<V>>
      reads this
    {
      Flatten(Table)
    }

    /** A table with `initialCapacity` empty buckets; the defaults are 16
        buckets and a load factor of 3/4. */
    constructor (initialCapacity: nat := 16, loadNum: nat := 3, loadDen: nat := 4)
      requires initialCapacity > 0 && loadDen > 0
      ensures Valid() && fresh(buckets)
      ensures capacity == initialCapacity && this.loadNum == loadNum && this.loadDen == loadDen
      ensures Contents == map[] && size == 0
      ensures |Table| == initialCapacity && forall i :: 0 <= i < |Table| ==> Table[i] == []
    {
      var empty := new seq<Entry<V>>[initialCapacity](_ => []);
      EmptyLayout(empty[..]);
      capacity := initialCapacity;
      this.loadNum := loadNum;
      this.loadDen := loadDen;
      size := 0;
      buckets := empty;
      Table := empty[..];
      Contents := map[];
    }

    /** The bucket index of `key` under the current capacity. */
    method Hash(key: string) returns (h: nat)
      requires capacity > 0
      ensures h == RollingHash(key, capacity)
    {
      h := 0;
      var i := 0;
      while i < |key|
        invariant 0 <= i <= |key|
        invariant h == RollingHash(key[..i], capacity)
      {
        assert key[..i + 1][..i] == key[..i];
        h := (Prime * h + Code(key[i])) % capacity;
        i := i + 1;
      }
      assert key[..|key|] == key;
    }

    /** The bucket index of `key` under a given capacity, used while resizing. */
    method HashWithCapacity(key: string, newCapacity: nat) returns (h: nat)
      requires newCapacity > 0
      ensures h == RollingHash(key, newCapacity)
    {
      h := 0;
      var i := 0;
      while i < |key|
        invariant 0 <= i <= |key|
        invariant h == RollingHash(key[..i], newCapacity)
      {
        assert key[..i + 1][..i] == key[..i];
        h := (Prime * h + Code(key[i])) % newCapacity;
        i := i + 1;
      }
      assert key[..|key|] == key;
    }

    /** Stores `value` under `key`.  A present key has its pair replaced in
        place; a new key is appended to its bucket, and when the load then
        exceeds the load factor the table doubles. */
    method Set(key: string, value: V)
      requires Valid()
      modifies this, buckets
      ensures Valid()
      ensures Contents == old(Contents)[key := value]
      ensures size == if key in old(Contents) then old(size) else old(size) + 1
      ensures capacity == if key !in old(Contents) && Overloaded(size, old(capacity))
                          then 2 * old(capacity) else old(capacity)
      ensures var h := RollingHash(key, old(capacity));
        var placed := old(Table)[h := Put(old(Table)[h], key, value)];
        Table == if capacity == old(capacity) then placed else Rehashed(placed)
      ensures if capacity == old(capacity) then buckets == old(buckets) else fresh(buckets)
    {
      var index := Hash(key);
      var bucket := buckets[index];
      var i := 0;
      while i < |bucket|
        invariant 0 <= i <= |bucket|
        invariant forall p :: 0 <= p < i ==> bucket[p].0 != key
      {
        if bucket[i].0 == key {
          var b := bucket[i := (key, value)];
          assert && key in Contents && Put(bucket, key, value) == b
                 && Layout(Table[index := b], Contents[key := value])
                 && |Contents[key := value]| == size == |Flatten(Table[index := b])| by {
            PutFound(bucket, key, value, i);
            LayoutOverwrite(Table, Contents, key, value, i);
            FlattenReplaceLength(Table, index, b);
          }
          StoreBucket(index, b, Contents[key := value], size);
          return;
        }
        i := i + 1;
      }
      var b := bucket + [(key, value)];
      assert && key !in Contents && Put(bucket, key, value) == b
             && Layout(Table[index := b], Contents[key := value])
             && |Contents[key := value]| == size + 1 == |Flatten(Table[index := b])| by {
        PutMissing(bucket, key, value);
        LayoutAppend(Table, Contents, key, value);
        FlattenReplaceLength(Table, index, b);
      }
      StoreBucket(index, b, Contents[key := value], size + 1);
      if Overloaded(size, capacity) {
        Resize();
      }
    }

    /** The value stored under `key`, or None when the key is absent. */
    method Get(key: string) returns (r: Option<V>)
      requires Valid()
      ensures r == if key in Contents then Some(Contents[key]) else None
    {
      var index := Hash(key);
      var bucket := buckets[index];
      LookupInLayout(Table, Contents, key);
      var i := 0;
      while i < |bucket|
        invariant 0 <= i <= |bucket|
        invariant forall p :: 0 <= p < i ==> bucket[p].0 != key
      {
        if bucket[i].0 == key {
          PutFound(bucket, key, bucket[i].1, i);
          return Some(bucket[i].1);
        }
        i := i + 1;
      }
      assert KeyIndex(bucket, key) == None;
      return None;
    }

    /** Whether `key` is stored: exactly when `Get` finds it. */
    method Has(key: string) returns (b: bool)
      requires Valid()
      ensures b <==> key in Contents
    {
      var r := Get(key);
      b := r.Some?;
    }

    /** Removes the pair for `key`, if any, keeping the other pairs of its
        bucket in order, and reports whether there was one. */
    method Remove(key: string) returns (removed: bool)
      requires Valid()
      modifies this, buckets
      ensures Valid()
      ensures removed == (key in old(Contents))
      ensures Contents == old(Contents) - {key}
      ensures size == if removed then old(size) - 1 else old(size)
      ensures capacity == old(capacity) && buckets == old(buckets)
      ensures var h := RollingHash(key, old(capacity));
        Table == old(Table)[h := Delete(old(Table)[h], key)]
    {
      var index := Hash(key);
      var bucket := buckets[index];
      var i := 0;
      while i < |bucket|
        invariant 0 <= i <= |bucket|
        invariant forall p :: 0 <= p < i ==> bucket[p].0 != key
      {
        if bucket[i].0 == key {
          var b := SpliceOut(bucket, i);
          PutFound(bucket, key, bucket[i].1, i);
          LayoutRemove(Table, Contents, key, i);
          FlattenReplaceLength(Table, index, b);
          StoreBucket(index, b, Contents - {key}, size - 1);
          return true;
        }
        i := i + 1;
      }
      assert KeyIndex(bucket, key) == None;
      LookupInLayout(Table, Contents, key);
      assert Contents - {key} == Contents;
      return false;
    }

    /** Writes bucket `index` back as `b`, together with the map and the key
        count the table then stands for. */
    method StoreBucket(index: nat, b: seq<Entry<V>>, ghost contents: map<string, V>, newSize: nat)
      requires 0 < loadDen && buckets.Length == capacity && buckets[..] == Table
      requires index < capacity && Layout(Table[index := b], contents)
      requires newSize == |contents| && newSize == |Flatten(Table[index := b])|
      modifies this, buckets
      ensures Valid() && Table == old(Table)[index := b] && Contents == contents && size == newSize
      ensures capacity == old(capacity) && buckets == old(buckets)
    {
      buckets[index] := b;
      Table := Table[index := b];
      size := newSize;
      Contents := contents;
    }

    /** The number of stored keys. */
    method Length() returns (n: nat)
      requires Valid()
      ensures n == |Contents| && n == |ScanOrder()|
    {
      n := size;
    }

    /** Empties the table, keeping its current capacity. */
    method Clear()
      requires Valid()
      modifies this
      ensures Valid() && fresh(buckets)
      ensures capacity == old(capacity) && size == 0 && Contents == map[]
      ensures |Table| == capacity && forall i :: 0 <= i < |Table| ==> Table[i] == []
    {
      var empty := new seq<Entry<V>>[capacity](_ => []);
      EmptyLayout(empty[..]);
      buckets := empty;
      Table := empty[..];
      size := 0;
      Contents := map[];
    }

    /** Every stored key, once each, in scan order. */
    method Keys() returns (ks: seq<string>)
      requires Valid()
      ensures |ks| == size
      ensures forall p :: 0 <= p < |ks| ==> ks[p] == ScanOrder()[p].0
      ensures forall k :: k in ks <==> k in Contents
      ensures forall p, q :: 0 <= p < q < |ks| ==> ks[p] != ks[q]
    {
      ks := [];
      var i := 0;
      while i < buckets.Length
        invariant 0 <= i <= buckets.Length
        invariant |ks| == |Flatten(Table[..i])|
        invariant forall p :: 0 <= p < |ks| ==> ks[p] == Flatten(Table[..i])[p].0
      {
        var bucket := buckets[i];
        ghost var done := Flatten(Table[..i]);
        var j := 0;
        while j < |bucket|
          invariant 0 <= j <= |bucket|
          invariant |ks| == |done + bucket[..j]|
          invariant forall p :: 0 <= p < |ks| ==> ks[p] == (done + bucket[..j])[p].0
        {
          assert bucket[..j + 1] == bucket[..j] + [bucket[j]];
          ks := ks + [bucket[j].0];
          j := j + 1;
        }
        ScanNext(Table, i, bucket);
        i := i + 1;
      }
      KeysOfScan(Table, Contents, ks);
    }

    /** Every stored value, in scan order, position by position with `Keys`. */
    method Values() returns (vs: seq<V>)
      requires Valid()
      ensures |vs| == size
      ensures forall p :: 0 <= p < |vs| ==> vs[p] == ScanOrder()[p].1
      ensures forall p :: 0 <= p < |vs| ==> ScanOrder()[p].0 in Contents && vs[p] == Contents[ScanOrder()[p].0]
      ensures forall k :: k in Contents ==> Contents[k] in vs
    {
      vs := [];
      var i := 0;
      while i < buckets.Length
        invariant 0 <= i <= buckets.Length
        invariant |vs| == |Flatten(Table[..i])|
        invariant forall p :: 0 <= p < |vs| ==> vs[p] == Flatten(Table[..i])[p].1
      {
        var bucket := buckets[i];
        ghost var done := Flatten(Table[..i]);
        var j := 0;
        while j < |bucket|
          invariant 0 <= j <= |bucket|
          invariant |vs| == |done + bucket[..j]|
          invariant forall p :: 0 <= p < |vs| ==> vs[p] == (done + bucket[..j])[p].1
        {
          assert bucket[..j + 1] == bucket[..j] + [bucket[j]];
          vs := vs + [bucket[j].1];
          j := j + 1;
        }
        ScanNext(Table, i, bucket);
        i := i + 1;
      }
      ScanAll(Table);
      ValuesOfScan(Table, Contents, vs);
    }

    /** Every stored pair, in scan order: each entry of `Contents` once. */
    method Entries() returns (es: seq<Entry<V>>)
      requires Valid()
      ensures es == ScanOrder() && |es| == size
      ensures forall e :: e in es <==> e.0 in Contents && Contents[e.0] == e.1
      ensures DistinctKeys(es)
    {
      es := [];
      var i := 0;
      while i < buckets.Length
        invariant 0 <= i <= buckets.Length
        invariant es == Flatten(Table[..i])
      {
        var bucket := buckets[i];
        var j := 0;
        while j < |bucket|
          invariant 0 <= j <= |bucket|
          invariant es == Flatten(Table[..i]) + bucket[..j]
        {
          assert bucket[..j + 1] == bucket[..j] + [bucket[j]];
          es := es + [bucket[j]];
          j := j + 1;
        }
        ScanNext(Table, i, bucket);
        i := i + 1;
      }
      ScanAll(Table);
      LayoutScan(Table, Contents);
    }

    /** Doubles the bucket count and moves every pair, in scan order, to the
        end of the bucket its key hashes to under the new count. */
    method Resize()
      requires Valid()
      modifies this
      ensures Valid() && fresh(buckets)
      ensures capacity == 2 * old(capacity) && size == old(size) && Contents == old(Contents)
      ensures Table == Rehashed(old(Table))
    {
      var newCapacity := capacity * 2;
      var newBuckets := Redistribute(newCapacity);
      RehashedLayout(Table, Contents);
      capacity := newCapacity;
      buckets := newBuckets;
      Table := newBuckets[..];
    }

    /** The rehashing loop of a resize: fresh buckets of the new count, filled
        by visiting the stored pairs in scan order and appending each to the
        bucket its key hashes to under that count. */
    method Redistribute(newCapacity: nat) returns (newBuckets: array<seq<Entry<V>>>)
      requires buckets[..] == Table && |Table| > 0 && newCapacity == 2 * |Table|
      ensures fresh(newBuckets) && newBuckets[..] == Rehashed(Table)
    {
      newBuckets := new seq<Entry<V>>[newCapacity](_ => []);
      ghost var ob := Table;
      ghost var empty := EmptyBuckets<V>(newCapacity);
      ghost var nt := empty;
      assert newBuckets[..] == nt;
      var i := 0;
      while i < buckets.Length
        modifies newBuckets
        invariant 0 <= i <= |ob|
        invariant newBuckets[..] == nt
        invariant nt == ReinsertAll(empty, Flatten(ob[..i]))
      {
        var bucket := buckets[i];
        ghost var done := Flatten(ob[..i]);
        assert done + bucket[..0] == done;
        var j := 0;
        while j < |bucket|
          modifies newBuckets
          invariant 0 <= j <= |bucket|
          invariant newBuckets[..] == nt
          invariant nt == ReinsertAll(empty, done + bucket[..j])
        {
          var (key, value) := bucket[j];
          var newIndex := HashWithCapacity(key, newCapacity);
          newBuckets[newIndex] := newBuckets[newIndex] + [(key, value)];
          ReinsertNext(empty, done, bucket, j);
          nt := Reinsert(nt, (key, value));
          j := j + 1;
        }
        ScanNext(ob, i, bucket);
        i := i + 1;
      }
      ScanAll(ob);
    }
  }

  /** A table's load test is the source's comparison of the load with the
      load factor, carried out on exact fractions. */
  lemma OverloadedIsLoadAboveFactor<V(!new)>(m: HashMap<V>, n: nat, cap: nat)
    requires cap > 0 && m.loadDen > 0
    ensures m.Overloaded(n, cap) <==> (n as real) / (cap as real) > (m.loadNum as real) / (m.loadDen as real)
  {
    var x, y := (n as real) / (cap as real), (m.loadNum as real) / (m.loadDen as real);
    assert x * (cap as real) == n as real;
    assert y * (m.loadDen as real) == m.loadNum as real;
    assert (n * m.loadDen) as real == x * (cap as real) * (m.loadDen as real);
    assert (cap * m.loadNum) as real == y * (cap as real) * (m.loadDen as real);
  }
}
