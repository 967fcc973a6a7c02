/**
 * The separate-chaining hash map of the catalogue: one bucket per slot of a
 * fixed capacity, each a linked list of key/value nodes; put updates the
 * node holding the key or links a new node in at the head of its bucket,
 * remove unlinks the first node holding the key.
 *
 * A bucket's linked list is its sequence of entries, head first; a node's
 * value being overwritten is the entry at its position being replaced.
 */
module SeparateChaining {
  import opened Wrappers
  import opened OpenAddressing

  /** A bucket's nodes, head first. */
  type Bucket<V> = seq<(Key, V)>

  /** The position of the first node holding key. */
  function FindIn<V>(b: Bucket<V>, key: Key): (r: Option<nat>)
    ensures r.Some? ==> r.value < |b| && b[r.value].0 == key && forall i :: 0 <= i < r.value ==> b[i].0 != key
    ensures r.None? <==> forall i :: 0 <= i < |b| ==> b[i].0 != key
  {
    if b == [] then None
    else if b[0].0 == key then Some(0)
    else
      match FindIn(b[1..], key)
      case None => None
      case Some(i) => Some(i + 1)
  }

  /** A node holding key with none before it is the one FindIn names. */
  lemma FindAt<V>(b: Bucket<V>, key: Key, i: nat)
    requires i < |b| && b[i].0 == key && forall e :: 0 <= e < i ==> b[e].0 != key
    ensures FindIn(b, key) == Some(i)
  {
  }

  /** The walk of get over one bucket. */
  function BucketGet<V>(b: Bucket<V>, key: Key): Option<V>
  {
    match FindIn(b, key)
    case None => None
    case Some(i) => Some(b[i].1)
  }

  /** put on one bucket: overwrite the node holding key, else a new node at the head. */
  function BucketPut<V>(b: Bucket<V>, key: Key, value: V): Bucket<V>
  {
    match FindIn(b, key)
    case Some(i) => b[i := (key, value)]
    case None => [(key, value)] + b
  }

  /** remove on one bucket: unlink the first node holding key. */
  function BucketRemove<V>(b: Bucket<V>, key: Key): Bucket<V>
  {
    match FindIn(b, key)
    case Some(i) => b[..i] + b[i + 1..]
    case None => b
  }

  /** No key is held by two nodes of a bucket. */
  predicate DistinctKeys<V>(b: Bucket<V>)
  {
    forall i, j :: 0 <= i < |b| && 0 <= j < |b| && b[i].0 == b[j].0 ==> i == j
  }

  /** Bucket slot holds only keys that hash to slot, each once. */
  predicate InBucket<V>(b: Bucket<V>, slot: nat, capacity: nat)
    requires capacity > 0
  {
    DistinctKeys(b) && forall e :: 0 <= e < |b| ==> HashOf(b[e].0, capacity) == slot
  }

  /** The number of nodes over all buckets. */
  function Total<V>(buckets: seq<Bucket<V>>): nat
  {
    if buckets == [] then 0 else |buckets[0]| + Total(buckets[1..])
  }

  lemma {:induction false} TotalUpdate<V>(buckets: seq<Bucket<V>>, j: nat, b: Bucket<V>)
    requires j < |buckets|
    ensures Total(buckets[j := b]) == Total(buckets) - |buckets[j]| + |b|
    decreases |buckets|
  {
    if j > 0 {
      assert buckets[j := b][1..] == buckets[1..][j - 1 := b];
      TotalUpdate(buckets[1..], j - 1, b);
    } else {
      assert buckets[j := b][1..] == buckets[1..];
    }
  }

  lemma {:induction false} TotalZero<V>(buckets: seq<Bucket<V>>)
    ensures Total(buckets) == 0 <==> forall j :: 0 <= j < |buckets| ==> buckets[j] == []
    decreases |buckets|
  {
    if buckets != [] {
      TotalZero(buckets[1..]);
      assert forall j :: 1 <= j < |buckets| ==> buckets[j] == buckets[1..][j - 1];
    }
  }

  /** put then get gives the value put, and get of any other key is as before. */
  lemma PutThenGet<V>(b: Bucket<V>, key: Key, value: V)
    ensures BucketGet(BucketPut(b, key, value), key) == Some(value)
    ensures forall other :: other != key ==> BucketGet(BucketPut(b, key, value), other) == BucketGet(b, other)
  {
    var b2 := BucketPut(b, key, value);
    match FindIn(b, key)
    case Some(i) =>
      assert b2 == b[i := (key, value)];
      FindAt(b2, key, i);
      forall other | other != key
        ensures BucketGet(b2, other) == BucketGet(b, other)
      {
        if FindIn(b, other).Some? {
          FindAt(b2, other, FindIn(b, other).value);
        }
      }
    case None =>
      assert b2 == [(key, value)] + b;
      FindAt(b2, key, 0);
      forall other | other != key
        ensures BucketGet(b2, other) == BucketGet(b, other)
      {
        assert b2[1..] == b;
      }
  }

  /** put keeps the bucket right, and adds a node exactly when key was not there. */
  lemma PutKeepsBucket<V>(b: Bucket<V>, key: Key, value: V, slot: nat, capacity: nat)
    requires capacity > 0 && InBucket(b, slot, capacity) && HashOf(key, capacity) == slot
    ensures InBucket(BucketPut(b, key, value), slot, capacity)
    ensures |BucketPut(b, key, value)| == |b| + (if FindIn(b, key).None? then 1 else 0)
  {
    var b2 := BucketPut(b, key, value);
    if FindIn(b, key).None? {
      assert forall e :: 1 <= e < |b2| ==> b2[e] == b[e - 1];
    }
  }

  /** Unlinking node i moves every later node one place forward. */
  lemma Unlink<V>(b: Bucket<V>, i: nat)
    requires i < |b|
    ensures var b2 := b[..i] + b[i + 1..];
      |b2| == |b| - 1 && forall e :: 0 <= e < |b2| ==> b2[e] == b[if e < i then e else e + 1]
  {
  }

  /** remove of a held key leaves get with nothing for it, and get of any other key is as before. */
  lemma RemoveThenGet<V>(b: Bucket<V>, key: Key)
    requires DistinctKeys(b)
    ensures BucketGet(BucketRemove(b, key), key) == None
    ensures forall other :: other != key ==> BucketGet(BucketRemove(b, key), other) == BucketGet(b, other)
  {
    match FindIn(b, key)
    case None =>
    case Some(i) =>
      var b2 := b[..i] + b[i + 1..];
      assert b2 == BucketRemove(b, key);
      Unlink(b, i);
      assert FindIn(b2, key).None?;
      forall other | other != key
        ensures BucketGet(b2, other) == BucketGet(b, other)
      {
        if FindIn(b, other).Some? {
          var k := FindIn(b, other).value;
          FindAt(b2, other, if k < i then k else k - 1);
        }
      }
  }

  /** remove keeps the bucket right, and drops a node exactly when key was there. */
  lemma RemoveKeepsBucket<V>(b: Bucket<V>, key: Key, slot: nat, capacity: nat)
    requires capacity > 0 && InBucket(b, slot, capacity)
    ensures InBucket(BucketRemove(b, key), slot, capacity)
    ensures |BucketRemove(b, key)| == |b| - (if FindIn(b, key).Some? then 1 else 0)
  {
    if FindIn(b, key).Some? {
      Unlink(b, FindIn(b, key).value);
    }
  }

  /** Unlinking the first node holding key at position i: from the head when i is 0, else past its predecessor. */
  lemma RemoveAt<V>(b: Bucket<V>, key: Key, i: nat)
    requires i < |b| && b[i].0 == key && forall e :: 0 <= e < i ==> b[e].0 != key
    ensures i == 0 ==> BucketRemove(b, key) == b[1..]
    ensures i > 0 ==> BucketRemove(b, key) == b[..(i - 1) + 1] + b[i + 1..]
  {
    FindAt(b, key, i);
    if i == 0 {
      assert b[..0] + b[1..] == b[1..];
    }
  }

  method RemoveFromBucket<V>(bucket: Bucket<V>, key: Key) returns (rest: Bucket<V>, removed: bool)
    ensures rest == BucketRemove(bucket, key)
    ensures removed <==> FindIn(bucket, key).Some?
  {
    var prev: Option<nat> := None;
    var i := 0;
    while i < |bucket|
      invariant 0 <= i <= |bucket| && forall e :: 0 <= e < i ==> bucket[e].0 != key
      invariant prev == if i == 0 then None else Some(i - 1)
    {
      if bucket[i].0 == key {
        RemoveAt(bucket, key, i);
        if prev.None? {
          rest := bucket[1..];
        } else {
          rest := bucket[..prev.value + 1] + bucket[i + 1..];
        }
        return rest, true;
      }
      prev := Some(i);
      i := i + 1;
    }
    assert FindIn(bucket, key).None?;
    return bucket, false;
  }

  class ChainedMap<V> {
    const capacity: nat
    var size: int
    const buckets: array<Bucket<V>>

    ghost predicate Valid()
      reads this, buckets
    {
      capacity > 0 && buckets.Length == capacity &&
      (forall j :: 0 <= j < capacity ==> InBucket(buckets[j], j, capacity)) &&
      size == Total(buckets[..])
    }

    /** capacity empty buckets (16 unless given). */
    constructor(capacity: nat)
      requires capacity > 0
      ensures Valid() && this.capacity == capacity && size == 0
      ensures forall j :: 0 <= j < capacity ==> buckets[j] == []
      ensures fresh(buckets)
    {
      this.capacity := capacity;
      size := 0;
      buckets := new Bucket<V>[capacity](_ => []);
      new;
      TotalZero(buckets[..]);
    }

    /**
     * put(key, value): walk key's bucket; a node holding key gets the new
     * value; otherwise a new node goes to the head of the bucket and the
     * size grows by one.
     */
    method Put(key: Key, value: V)
      requires Valid()
      modifies this, buckets
      ensures Valid()
      ensures var h := HashOf(key, capacity);
        buckets[..] == old(buckets[..])[h := BucketPut(old(buckets[h]), key, value)] &&
        size == old(size) + (if FindIn(old(buckets[h]), key).None? then 1 else 0)
    {
      var index := Hash(key, capacity);
      var bucket := buckets[index];
      PutKeepsBucket(bucket, key, value, index, capacity);
      TotalUpdate(buckets[..], index, BucketPut(bucket, key, value));
      var i := 0;
      while i < |bucket|
        invariant 0 <= i <= |bucket| && forall e :: 0 <= e < i ==> bucket[e].0 != key
      {
        if bucket[i].0 == key {
          FindAt(bucket, key, i);
          buckets[index] := bucket[i := (key, value)];
          return;
        }
        i := i + 1;
      }
      buckets[index] := [(key, value)] + bucket;
      size := size + 1;
    }

    /** get(key): the value of the first node of key's bucket holding key, undefined when there is none. */
    method Get(key: Key) returns (r: Option<V>)
      requires Valid()
      ensures r == BucketGet(buckets[HashOf(key, capacity)], key)
    {
      var index := Hash(key, capacity);
      var bucket := buckets[index];
      var i := 0;
      while i < |bucket|
        invariant 0 <= i <= |bucket| && forall e :: 0 <= e < i ==> bucket[e].0 != key
      {
        if bucket[i].0 == key {
          return Some(bucket[i].1);
        }
        i := i + 1;
      }
      return None;
    }

    /**
     * remove(key): walk key's bucket keeping the previous node; unlink the
     * first node holding key, from the bucket head or from its predecessor,
     * and shrink the size; an absent key changes nothing.
     */
    method Remove(key: Key)
      requires Valid()
      modifies this, buckets
      ensures Valid()
      ensures var h := HashOf(key, capacity);
        buckets[..] == old(buckets[..])[h := BucketRemove(old(buckets[h]), key)] &&
        size == old(size) - (if FindIn(old(buckets[h]), key).Some? then 1 else 0)
    {
      var index := Hash(key, capacity);
      var bucket := buckets[index];
      RemoveKeepsBucket(bucket, key, index, capacity);
      TotalUpdate(buckets[..], index, BucketRemove(bucket, key));
      var rest, removed := RemoveFromBucket(bucket, key);
      if removed {
        buckets[index] := rest;
        size := size - 1;
      } else {
        assert buckets[..] == old(buckets[..])[index := rest];
      }
    }

    method SizeValue() returns (n: int)
      requires Valid()
      ensures n == Total(buckets[..]) && n >= 0
    {
      return size;
    }

    /** isEmpty: every bucket is empty. */
    method IsEmpty() returns (empty: bool)
      requires Valid()
      ensures empty <==> forall j :: 0 <= j < buckets.Length ==> buckets[j] == []
    {
      TotalZero(buckets[..]);
      return size == 0;
    }
  }
}
