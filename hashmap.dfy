/**
 * The separate-chaining hash table of src/hashmap.c: `size` buckets, each a list
 * of `{key, value}` records, the bucket of a key being `hashFunc(key) % size`.
 * The bucket array is an `array`; each bucket list is the sequence of its records,
 * front first, reassigned when the table changes it.
 */
module HashMaps {
  import opened Wrappers
  import opened Buckets

  /** C's `unsigned int`, the result type of `hashFunc`. */
  newtype uint32 = x: int | 0 <= x < 0x1_0000_0000

  /**
   * The bucket of `key`. The remainder is taken in unsigned arithmetic in Put, Get,
   * Remove and Pop alike, so it is never negative and always below `size`.
   */
  function BucketIndex<K>(hashFunc: K -> uint32, size: int, key: K): (h: nat)
    requires size > 0
    ensures h < size
  {
    (hashFunc(key) as int) % size
  }

  /** Bucket placement: every record lives in the bucket of its own key. */
  ghost predicate Placed<K, V>(hashFunc: K -> uint32, buckets: seq<seq<Entry<K, V>>>)
  {
    forall b, i :: 0 <= b < |buckets| && 0 <= i < |buckets[b]| ==>
      BucketIndex(hashFunc, |buckets|, buckets[b][i].key) == b
  }

  /** Keys that `compFunc` matches hash to the same bucket. */
  ghost predicate ConsistentWithHash<K(!new)>(hashFunc: K -> uint32, size: int, compFunc: Option<(K, K) -> bool>)
    requires size > 0
  {
    forall a, b :: KeyMatches(compFunc, a, b) ==> BucketIndex(hashFunc, size, a) == BucketIndex(hashFunc, size, b)
  }

  /**
   * Looking in the key's own bucket only never misses a record: with placement and a
   * comparison consistent with the hash, any matching record anywhere in the table
   * sits in that bucket, at or after the first match found there.
   */
  lemma OwnBucketSuffices<K(!new), V>(hashFunc: K -> uint32, compFunc: Option<(K, K) -> bool>,
                                      buckets: seq<seq<Entry<K, V>>>, key: K, b: nat, i: nat)
    requires |buckets| > 0
    requires Placed(hashFunc, buckets)
    requires ConsistentWithHash(hashFunc, |buckets|, compFunc)
    requires b < |buckets| && i < |buckets[b]|
    requires KeyMatches(compFunc, buckets[b][i].key, key)
    ensures b == BucketIndex(hashFunc, |buckets|, key)
    ensures FirstMatch(compFunc, buckets[b], key) <= i
  {
    assert BucketIndex(hashFunc, |buckets|, buckets[b][i].key) == b;
  }

  /** Pointer identity is always consistent with any hash function. */
  lemma IdentityIsConsistent<K(!new)>(hashFunc: K -> uint32, size: int)
    requires size > 0
    ensures ConsistentWithHash(hashFunc, size, None)
  {
  }

  class HashMap<K(==), V> {
    const size: int
    const values: array<seq<Entry<K, V>>>
    const hashFunc: K -> uint32
    const compFunc: Option<(K, K) -> bool>

    /** The table's invariant: `size` positive buckets, every record placed by its key. */
    ghost predicate Valid()
      reads values
    {
      size > 0 && values.Length == size && Placed(hashFunc, values[..])
    }

    /** `HashMapCreate`: `size` empty buckets. A hash function is always given. */
    constructor (size: int, hashFunc: K -> uint32, compFunc: Option<(K, K) -> bool>)
      requires size > 0
      ensures Valid() && fresh(values)
      ensures this.size == size && this.hashFunc == hashFunc && this.compFunc == compFunc
      ensures forall b :: 0 <= b < size ==> values[b] == []
    {
      this.hashFunc := hashFunc;
      this.compFunc := compFunc;
      this.size := size;
      var lists := new seq<Entry<K, V>>[size];
      for i := 0 to size
        invariant forall j :: 0 <= j < i ==> lists[j] == []
      {
        lists[i] := [];
      }
      values := lists;
    }

    /**
     * `HashMapGet`: walks the key's bucket from the front and yields the value of the
     * first record whose key matches, or NULL.
     */
    method Get(key: K) returns (value: Option<V>)
      requires Valid()
      ensures value == Lookup(compFunc, values[BucketIndex(hashFunc, size, key)], key)
    {
      var list := values[BucketIndex(hashFunc, size, key)];
      value := None;
      var i := 0;
      while i < |list|
        invariant 0 <= i <= |list|
        invariant forall j :: 0 <= j < i ==> !KeyMatches(compFunc, list[j].key, key)
      {
        if KeyMatches(compFunc, list[i].key, key) {
          value := list[i].value;
          break;
        }
        i := i + 1;
      }
      FirstMatchUnique(compFunc, list, key, i);
    }

    /** `HashMapContains`: whether Get yields a non-NULL value. */
    method Contains(key: K) returns (present: bool)
      requires Valid()
      ensures present <==> Lookup(compFunc, values[BucketIndex(hashFunc, size, key)], key) != None
    {
      var value := Get(key);
      present := value != None;
    }

    /**
     * `HashMapPut`: overwrites the value of the first matching record in place when
     * the key is reported present, otherwise prepends a new record. Only the key's
     * bucket changes, and Put always reports success.
     */
    method Put(key: K, value: Option<V>) returns (ok: bool)
      requires Valid()
      modifies values
      ensures Valid()
      ensures ok
      ensures values[BucketIndex(hashFunc, size, key)] == PutBucket(compFunc, old(values[BucketIndex(hashFunc, size, key)]), key, value)
      ensures forall b :: 0 <= b < size && b != BucketIndex(hashFunc, size, key) ==> values[b] == old(values[b])
    {
      var h := BucketIndex(hashFunc, size, key);
      var present := Contains(key);
      if present {
        var list := values[h];
        var i := 0;
        while i < |list|
          invariant 0 <= i <= |list|
          invariant forall j :: 0 <= j < i ==> !KeyMatches(compFunc, list[j].key, key)
        {
          if KeyMatches(compFunc, list[i].key, key) {
            FirstMatchUnique(compFunc, list, key, i);
            values[h] := list[i := Entry(list[i].key, value)];
            assert values[..] == old(values[..])[h := values[h]];
            return true;
          }
          i := i + 1;
        }
      }
      values[h] := [Entry(key, value)] + values[h];
      assert values[..] == old(values[..])[h := values[h]];
      return true;
    }

    /**
     * `HashMapRemove`: takes the first matching record out of the key's bucket and
     * reports whether there was one; with none the table is unchanged.
     */
    method Remove(key: K) returns (ok: bool)
      requires Valid()
      modifies values
      ensures Valid()
      ensures ok <==> FirstMatch(compFunc, old(values[BucketIndex(hashFunc, size, key)]), key) < |old(values[BucketIndex(hashFunc, size, key)])|
      ensures values[BucketIndex(hashFunc, size, key)] == RemoveBucket(compFunc, old(values[BucketIndex(hashFunc, size, key)]), key)
      ensures ok ==> |values[BucketIndex(hashFunc, size, key)]| == |old(values[BucketIndex(hashFunc, size, key)])| - 1
      ensures !ok ==> values[..] == old(values[..])
      ensures forall b :: 0 <= b < size && b != BucketIndex(hashFunc, size, key) ==> values[b] == old(values[b])
    {
      var h := BucketIndex(hashFunc, size, key);
      var list := values[h];
      var i := 0;
      while i < |list|
        invariant 0 <= i <= |list|
        invariant forall j :: 0 <= j < i ==> !KeyMatches(compFunc, list[j].key, key)
      {
        if KeyMatches(compFunc, list[i].key, key) {
          FirstMatchUnique(compFunc, list, key, i);
          values[h] := RemoveAt(list, i);
          assert values[..] == old(values[..])[h := values[h]];
          return true;
        }
        i := i + 1;
      }
      FirstMatchUnique(compFunc, list, key, i);
      return false;
    }

    /**
     * `HashMapPop`: like Remove, but hands back what `ListPop` yields, which is the
     * removed record itself (key and value), or NULL when nothing matches.
     */
    method Pop(key: K) returns (popped: Option<Entry<K, V>>)
      requires Valid()
      modifies values
      ensures Valid()
      ensures var list := old(values[BucketIndex(hashFunc, size, key)]); var i := FirstMatch(compFunc, list, key);
        popped == if i < |list| then Some(list[i]) else None
      ensures values[BucketIndex(hashFunc, size, key)] == RemoveBucket(compFunc, old(values[BucketIndex(hashFunc, size, key)]), key)
      ensures popped == None ==> values[..] == old(values[..])
      ensures forall b :: 0 <= b < size && b != BucketIndex(hashFunc, size, key) ==> values[b] == old(values[b])
    {
      var h := BucketIndex(hashFunc, size, key);
      var list := values[h];
      var i := 0;
      while i < |list|
        invariant 0 <= i <= |list|
        invariant forall j :: 0 <= j < i ==> !KeyMatches(compFunc, list[j].key, key)
      {
        if KeyMatches(compFunc, list[i].key, key) {
          FirstMatchUnique(compFunc, list, key, i);
          popped := Some(list[i]);
          values[h] := RemoveAt(list, i);
          assert values[..] == old(values[..])[h := values[h]];
          return;
        }
        i := i + 1;
      }
      FirstMatchUnique(compFunc, list, key, i);
      return None;
    }
  }
}
