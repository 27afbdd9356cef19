/**
 * One bucket of the separate-chaining hash table of src/hashmap.c: the list of
 * `{key, value}` records that share a bucket index, front first. The operations
 * the table performs on a bucket (find the first matching record, overwrite or
 * prepend, pop by index) are stated here as functions on sequences, together
 * with the lemmas that say what they mean.
 */
module Buckets {
  import opened Wrappers

  /** A `hashmap_elem` record. A NULL value is `None`. */
  datatype Entry<K, V> = Entry(key: K, value: Option<V>)

  /**
   * Key comparison as the table performs it: with `compFunc(element->key, key)`
   * when a comparison function was given, otherwise by pointer identity.
   */
  predicate KeyMatches<K(==)>(compFunc: Option<(K, K) -> bool>, stored: K, key: K)
  {
    match compFunc
    case Some(f) => f(stored, key)
    case None => stored == key
  }

  /** `compFunc` behaves as an equivalence (always so for pointer identity). */
  ghost predicate Equivalence<K(!new)>(compFunc: Option<(K, K) -> bool>)
  {
    && (forall a :: KeyMatches(compFunc, a, a))
    && (forall a, b :: KeyMatches(compFunc, a, b) ==> KeyMatches(compFunc, b, a))
    && (forall a, b, c :: KeyMatches(compFunc, a, b) && KeyMatches(compFunc, b, c) ==> KeyMatches(compFunc, a, c))
  }

  /** `compFunc` is reflexive: every key matches itself. */
  ghost predicate Reflexive<K(!new)>(compFunc: Option<(K, K) -> bool>)
  {
    forall a :: KeyMatches(compFunc, a, a)
  }

  /**
   * The position the table's cursor loop stops at: the index of the first record
   * whose key matches `key`, or `|bucket|` when none does.
   */
  function FirstMatch<K(==), V>(compFunc: Option<(K, K) -> bool>, bucket: seq<Entry<K, V>>, key: K): (i: nat)
    ensures i <= |bucket|
    ensures i < |bucket| ==> KeyMatches(compFunc, bucket[i].key, key)
    ensures forall j :: 0 <= j < i ==> !KeyMatches(compFunc, bucket[j].key, key)
  {
    if bucket == [] then 0
    else if KeyMatches(compFunc, bucket[0].key, key) then 0
    else 1 + FirstMatch(compFunc, bucket[1..], key)
  }

  /** What `HashMapGet` yields for a bucket: the first matching record's value, or NULL. */
  function Lookup<K(==), V>(compFunc: Option<(K, K) -> bool>, bucket: seq<Entry<K, V>>, key: K): Option<V>
  {
    var i := FirstMatch(compFunc, bucket, key);
    if i < |bucket| then bucket[i].value else None
  }

  /**
   * The bucket after `HashMapPut`: when the key is reported present (a matching
   * record with a non-NULL value comes first), that record's value is overwritten
   * and its key kept; otherwise a new record is prepended.
   */
  function PutBucket<K(==), V>(compFunc: Option<(K, K) -> bool>, bucket: seq<Entry<K, V>>, key: K, value: Option<V>): seq<Entry<K, V>>
  {
    if Lookup(compFunc, bucket, key) != None then
      var i := FirstMatch(compFunc, bucket, key);
      bucket[i := Entry(bucket[i].key, value)]
    else
      [Entry(key, value)] + bucket
  }

  /** `ListPop(list, i)` on a bucket: the record at `i` is taken out. */
  function RemoveAt<K, V>(bucket: seq<Entry<K, V>>, i: nat): (r: seq<Entry<K, V>>)
    requires i < |bucket|
    ensures |r| == |bucket| - 1
    ensures forall j :: 0 <= j < i ==> r[j] == bucket[j]
    ensures forall j :: i <= j < |r| ==> r[j] == bucket[j + 1]
  {
    bucket[..i] + bucket[i + 1..]
  }

  /** The bucket after `HashMapRemove` or `HashMapPop`: the first matching record is gone. */
  function RemoveBucket<K(==), V>(compFunc: Option<(K, K) -> bool>, bucket: seq<Entry<K, V>>, key: K): seq<Entry<K, V>>
  {
    var i := FirstMatch(compFunc, bucket, key);
    if i < |bucket| then RemoveAt(bucket, i) else bucket
  }

  /** No two records of the bucket have matching keys. */
  ghost predicate UniqueKeys<K, V>(compFunc: Option<(K, K) -> bool>, bucket: seq<Entry<K, V>>)
  {
    forall i, j :: 0 <= i < j < |bucket| ==> !KeyMatches(compFunc, bucket[i].key, bucket[j].key)
  }

  /** Every record of the bucket holds a non-NULL value. */
  ghost predicate NonNullValues<K, V>(bucket: seq<Entry<K, V>>)
  {
    forall i :: 0 <= i < |bucket| ==> bucket[i].value != None
  }

  /** A `Get` right after a `Put` of the same key yields the value put (NULL included). */
  lemma LookupAfterPut<K(!new), V>(compFunc: Option<(K, K) -> bool>, bucket: seq<Entry<K, V>>, key: K, value: Option<V>)
    requires Reflexive(compFunc)
    ensures Lookup(compFunc, PutBucket(compFunc, bucket, key, value), key) == value
  {
    var r := PutBucket(compFunc, bucket, key, value);
    if Lookup(compFunc, bucket, key) != None {
      var i := FirstMatch(compFunc, bucket, key);
      FirstMatchUnique(compFunc, r, key, i);
    } else {
      assert KeyMatches(compFunc, r[0].key, key);
      FirstMatchUnique(compFunc, r, key, 0);
    }
  }

  /**
   * `Put` of a key reported present adds no record: the first matching record gets
   * the new value and keeps its key, and every other record stays as it was.
   */
  lemma PutOverwritesInPlace<K, V>(compFunc: Option<(K, K) -> bool>, bucket: seq<Entry<K, V>>, key: K, value: Option<V>)
    requires Lookup(compFunc, bucket, key) != None
    ensures var r := PutBucket(compFunc, bucket, key, value); var i := FirstMatch(compFunc, bucket, key);
      && |r| == |bucket| && i < |r|
      && r[i] == Entry(bucket[i].key, value)
      && (forall j :: 0 <= j < |r| && j != i ==> r[j] == bucket[j])
  {
  }

  /** A `Put` leaves what `Get` yields for every key that does not match the key put. */
  lemma LookupAfterPutOther<K(!new), V>(compFunc: Option<(K, K) -> bool>, bucket: seq<Entry<K, V>>, key: K, value: Option<V>, other: K)
    requires Equivalence(compFunc)
    requires !KeyMatches(compFunc, other, key)
    ensures Lookup(compFunc, PutBucket(compFunc, bucket, key, value), other) == Lookup(compFunc, bucket, other)
  {
    var r := PutBucket(compFunc, bucket, key, value);
    var o := FirstMatch(compFunc, bucket, other);
    if Lookup(compFunc, bucket, key) != None {
      var i := FirstMatch(compFunc, bucket, key);
      // The overwritten record matches `key`, so it cannot match `other`.
      assert !KeyMatches(compFunc, bucket[i].key, other);
      FirstMatchUnique(compFunc, r, other, o);
    } else {
      assert !KeyMatches(compFunc, key, other);
      assert r[1..] == bucket;
      FirstMatchUnique(compFunc, r, other, o + 1);
    }
  }

  /** An index with a match and no match before it is the first match. */
  lemma FirstMatchUnique<K, V>(compFunc: Option<(K, K) -> bool>, bucket: seq<Entry<K, V>>, key: K, i: nat)
    requires i <= |bucket|
    requires i < |bucket| ==> KeyMatches(compFunc, bucket[i].key, key)
    requires forall j :: 0 <= j < i ==> !KeyMatches(compFunc, bucket[j].key, key)
    ensures FirstMatch(compFunc, bucket, key) == i
  {
  }

  /**
   * Putting a key the table reports absent and then removing it restores the
   * bucket, and `HashMapPop` would hand back exactly the record put.
   */
  lemma RemoveUndoesPut<K(!new), V>(compFunc: Option<(K, K) -> bool>, bucket: seq<Entry<K, V>>, key: K, value: Option<V>)
    requires Reflexive(compFunc)
    requires Lookup(compFunc, bucket, key) == None
    ensures var r := PutBucket(compFunc, bucket, key, value);
      && FirstMatch(compFunc, r, key) == 0
      && r[0] == Entry(key, value)
      && RemoveBucket(compFunc, r, key) == bucket
  {
    var r := PutBucket(compFunc, bucket, key, value);
    assert KeyMatches(compFunc, r[0].key, key);
    FirstMatchUnique(compFunc, r, key, 0);
    assert RemoveAt(r, 0) == bucket;
  }

  /**
   * A key stored with a NULL value counts as absent, so putting it again adds a
   * second record in front of the old one instead of overwriting it.
   */
  lemma PutAfterNullValueDuplicates<K(!new), V>(compFunc: Option<(K, K) -> bool>, bucket: seq<Entry<K, V>>, key: K, value: Option<V>)
    requires Reflexive(compFunc)
    requires FirstMatch(compFunc, bucket, key) < |bucket|
    requires bucket[FirstMatch(compFunc, bucket, key)].value == None
    ensures var r := PutBucket(compFunc, bucket, key, value);
      && |r| == |bucket| + 1
      && KeyMatches(compFunc, r[0].key, key)
      && KeyMatches(compFunc, r[1 + FirstMatch(compFunc, bucket, key)].key, key)
  {
  }

  /**
   * As long as no NULL value is stored, `Put` keeps a bucket free of duplicate
   * keys: the table then behaves as a map.
   */
  lemma PutKeepsKeysUnique<K(!new), V>(compFunc: Option<(K, K) -> bool>, bucket: seq<Entry<K, V>>, key: K, value: Option<V>)
    requires Equivalence(compFunc)
    requires UniqueKeys(compFunc, bucket) && NonNullValues(bucket)
    requires value != None
    ensures UniqueKeys(compFunc, PutBucket(compFunc, bucket, key, value))
    ensures NonNullValues(PutBucket(compFunc, bucket, key, value))
  {
    var r := PutBucket(compFunc, bucket, key, value);
    if Lookup(compFunc, bucket, key) == None {
      // No NULL value is stored, so no record matches `key` at all.
      assert FirstMatch(compFunc, bucket, key) == |bucket|;
      forall i, j | 0 <= i < j < |r|
        ensures !KeyMatches(compFunc, r[i].key, r[j].key)
      {
        if i == 0 {
          assert r[j] == bucket[j - 1];
        } else {
          assert r[i] == bucket[i - 1] && r[j] == bucket[j - 1];
        }
      }
    }
  }

  /** In a bucket without duplicate keys, removing a key leaves no record matching it. */
  lemma RemoveLeavesKeyAbsent<K(!new), V>(compFunc: Option<(K, K) -> bool>, bucket: seq<Entry<K, V>>, key: K)
    requires Equivalence(compFunc)
    requires UniqueKeys(compFunc, bucket)
    ensures var r := RemoveBucket(compFunc, bucket, key);
      FirstMatch(compFunc, r, key) == |r| && Lookup(compFunc, r, key) == None
  {
    var r := RemoveBucket(compFunc, bucket, key);
    var f := FirstMatch(compFunc, bucket, key);
    if f < |bucket| {
      forall j | 0 <= j < |r|
        ensures !KeyMatches(compFunc, r[j].key, key)
      {
        var k := if j < f then j else j + 1;
        assert r[j] == bucket[k];
        if f < k {
          assert !KeyMatches(compFunc, bucket[f].key, bucket[k].key);
        }
      }
    }
    FirstMatchUnique(compFunc, r, key, |r|);
  }
}
