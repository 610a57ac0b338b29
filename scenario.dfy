/** The demonstration that follows the class: twelve insertions into a
    default table, two overwrites, a thirteenth key that triggers the first
    resize, two lookups, a removal, the three enumerations and a clear.
    The counts, lookups and flags it prints are postconditions of `Demo`;
    of the three listings it states the lengths and the keys, values and
    pairs the script touched, not the full order. */
module Scenario {
  import opened Options
  import opened HashMaps

  /** The twelve key/value pairs the demonstration inserts, in order. */
  const Fruits: seq<(string, string)> := [
    ("apple", "red"), ("banana", "yellow"), ("carrot", "orange"), ("dog", "brown"),
    ("elephant", "gray"), ("frog", "green"), ("grape", "purple"), ("hat", "black"),
    ("ice cream", "white"), ("jacket", "blue"), ("kite", "pink"), ("lion", "golden")]

  /** The map obtained by storing the pairs of `ps` one after the other. */
  function MapOf(ps: seq<(string, string)>): map<string, string> {
    if ps == [] then map[] else MapOf(ps[..|ps| - 1])[ps[|ps| - 1].0 := ps[|ps| - 1].1]
  }

  /** A key no pair carries is not in the map the pairs build. */
  lemma {:induction false} AbsentKey(ps: seq<(string, string)>, k: string)
    requires forall p :: 0 <= p < |ps| ==> ps[p].0 != k
    ensures k !in MapOf(ps)
  {
    if ps != [] {
      AbsentKey(ps[..|ps| - 1], k);
    }
  }

  /** A pair whose key no later pair repeats survives in the map the pairs build. */
  lemma {:induction false} PresentKey(ps: seq<(string, string)>, p: nat)
    requires p < |ps| && forall q :: p < q < |ps| ==> ps[q].0 != ps[p].0
    ensures ps[p].0 in MapOf(ps) && MapOf(ps)[ps[p].0] == ps[p].1
  {
    if p < |ps| - 1 {
      PresentKey(ps[..|ps| - 1], p);
    }
  }

  /** The demonstration's keys are pairwise different. */
  lemma FruitsDistinct()
    ensures forall p, q :: 0 <= p < q < |Fruits| ==> Fruits[p].0 != Fruits[q].0
  {
  }

  /** The keys the rest of the demonstration touches. */
  lemma FruitsKeys()
    ensures "apple" in MapOf(Fruits) && "banana" in MapOf(Fruits) && "dog" in MapOf(Fruits)
    ensures "moon" !in MapOf(Fruits)
  {
    FruitsDistinct();
    PresentKey(Fruits, 0);
    PresentKey(Fruits, 1);
    PresentKey(Fruits, 3);
    AbsentKey(Fruits, "moon");
  }

  /** A default table after setting up to twelve pairs with distinct keys:
      at 12 keys over 16 buckets the load is exactly 3/4, which does not
      exceed the load factor, so no resize happens. */
  method Populate(pairs: seq<(string, string)>) returns (m: HashMap<string>)
    requires |pairs| <= 12 && forall p, q :: 0 <= p < q < |pairs| ==> pairs[p].0 != pairs[q].0
    ensures fresh(m) && fresh(m.buckets) && m.Valid() && m.loadNum == 3 && m.loadDen == 4
    ensures m.Contents == MapOf(pairs) && m.size == |pairs| && m.capacity == 16
  {
    m := new HashMap<string>();
    var i := 0;
    while i < |pairs|
      invariant 0 <= i <= |pairs|
      invariant fresh(m) && fresh(m.buckets) && m.Valid() && m.loadNum == 3 && m.loadDen == 4
      invariant m.Contents == MapOf(pairs[..i]) && m.size == i && m.capacity == 16
    {
      assert pairs[..i + 1][..i] == pairs[..i];
      AbsentKey(pairs[..i], pairs[i].0);
      assert !m.Overloaded(i + 1, 16) by {
        assert (i + 1) * m.loadDen == (i + 1) * 4 <= 48 == 16 * m.loadNum;
      }
      m.Set(pairs[i].0, pairs[i].1);
      i := i + 1;
    }
    assert pairs[..|pairs|] == pairs;
  }

  /** Overwriting two present keys changes neither the count nor the capacity. */
  method Overwrite(m: HashMap<string>)
    requires m.Valid() && m.size == 12 && m.capacity == 16
    requires "apple" in m.Contents && "banana" in m.Contents
    modifies m, m.buckets
    ensures m.Valid() && m.buckets == old(m.buckets) && m.size == 12 && m.capacity == 16
    ensures m.Contents == old(m.Contents)["apple" := "green"]["banana" := "brown"]
  {
    m.Set("apple", "green");
    m.Set("banana", "brown");
  }

  /** The thirteenth key makes the load 13/16 > 3/4: the table doubles to 32
      buckets and both lookups still find their values. */
  method Grow(m: HashMap<string>) returns (apple: Option<string>, moon: Option<string>, grown: nat)
    requires m.Valid() && m.loadNum == 3 && m.loadDen == 4 && m.size == 12 && m.capacity == 16
    requires "apple" in m.Contents && m.Contents["apple"] == "green"
    requires "dog" in m.Contents && "moon" !in m.Contents
    modifies m, m.buckets
    ensures m.Valid() && fresh(m.buckets) && m.capacity == 32 && m.size == 13
    ensures apple == Some("green") && moon == Some("silver") && grown == 13
    ensures "apple" in m.Contents && "dog" in m.Contents && "moon" in m.Contents
    ensures m.Contents["apple"] == "green" && m.Contents["moon"] == "silver"
  {
    m.Set("moon", "silver");
    apple := m.Get("apple");
    moon := m.Get("moon");
    grown := m.Length();
  }

  /** Removing a present key, then enumerating what is left. */
  method RemoveDog(m: HashMap<string>)
    returns (hasDog: bool, removedDog: bool, afterRemove: nat, keys: seq<string>,
             values: seq<string>, entries: seq<(string, string)>)
    requires m.Valid() && m.size == 13
    requires "apple" in m.Contents && "dog" in m.Contents && "moon" in m.Contents
    requires m.Contents["apple"] == "green" && m.Contents["moon"] == "silver"
    modifies m, m.buckets
    ensures m.Valid() && m.buckets == old(m.buckets) && m.capacity == old(m.capacity)
    ensures hasDog && removedDog && afterRemove == 12
    ensures |keys| == 12 && "dog" !in keys && "apple" in keys && "moon" in keys
    ensures |values| == 12 && "green" in values && "silver" in values
    ensures |entries| == 12 && ("apple", "green") in entries && ("moon", "silver") in entries
  {
    hasDog := m.Has("dog");
    removedDog := m.Remove("dog");
    afterRemove := m.Length();
    keys := m.Keys();
    values := m.Values();
    entries := m.Entries();
  }

  /** The whole demonstration; the results are what it prints, the three
      listings described by their lengths and the pairs the script touched. */
  method Demo()
    returns (before: nat, apple: Option<string>, moon: Option<string>, grown: nat,
             grownCapacity: nat, hasDog: bool, removedDog: bool, afterRemove: nat,
             keys: seq<string>, values: seq<string>, entries: seq<(string, string)>,
             cleared: nat, clearedCapacity: nat)
    ensures before == 12
    ensures apple == Some("green") && moon == Some("silver")
    ensures grown == 13 && grownCapacity == 32
    ensures hasDog && removedDog && afterRemove == 12
    ensures |keys| == 12 && "dog" !in keys && "apple" in keys && "moon" in keys
    ensures |values| == 12 && "green" in values && "silver" in values
    ensures |entries| == 12 && ("apple", "green") in entries && ("moon", "silver") in entries
    ensures cleared == 0 && clearedCapacity == 32
  {
    FruitsDistinct();
    var m := Populate(Fruits);
    FruitsKeys();
    before := m.Length();
    Overwrite(m);
    apple, moon, grown := Grow(m);
    grownCapacity := m.capacity;
    hasDog, removedDog, afterRemove, keys, values, entries := RemoveDog(m);
    m.Clear();
    cleared := m.Length();
    clearedCapacity := m.capacity;
  }
}
