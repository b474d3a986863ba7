/**
  A separate-chaining hash table: a fixed number of buckets, each a list of
  key/value pairs. Python's `hash` is outside the model; every operation takes
  it as a parameter `hash`, a fixed but arbitrary function from keys to
  integers.
 */
module ChainedHashTable {
  import opened Wrappers

  datatype Entry<K, V> = Entry(key: K, value: V)

  datatype Table<K, V> = Table(size: int, buckets: seq<seq<Entry<K, V>>>)

  /** The shape `HashTable.__init__` establishes and no operation changes. */
  predicate Shaped<K, V>(t: Table<K, V>) {
    t.size > 0 && |t.buckets| == t.size
  }

  /** `HashTable(size)`: `size` empty buckets. */
  function NewTable<K, V>(size: int): (t: Table<K, V>)
    requires size > 0
    ensures Shaped(t) && t.size == size
  {
    Table(size, seq(size, _ => []))
  }

  /** `hash_function`: the bucket a key belongs to. */
  function HashFunction<K, V>(t: Table<K, V>, hash: K -> int, key: K): (i: int)
    requires t.size > 0
    ensures 0 <= i < t.size
  {
    hash(key) % t.size
  }

  ghost predicate UniqueKeys<K, V>(b: seq<Entry<K, V>>) {
    forall x, y :: 0 <= x < y < |b| ==> b[x].key != b[y].key
  }

  /** Every pair sits in the bucket its key hashes to, and no bucket holds a key twice. */
  ghost predicate Valid<K, V>(t: Table<K, V>, hash: K -> int) {
    && Shaped(t)
    && (forall i, j :: 0 <= i < |t.buckets| && 0 <= j < |t.buckets[i]| ==>
          HashFunction(t, hash, t.buckets[i][j].key) == i)
    && (forall i :: 0 <= i < |t.buckets| ==> UniqueKeys(t.buckets[i]))
  }

  // Bucket operations: each scans the bucket front to back, as the `for` loops of `HashTable.insert`, `get` and `delete` do.

  /** The position of the first pair with `key` in `b`, or -1. */
  function KeyIndex<K(==), V>(b: seq<Entry<K, V>>, key: K): (j: int)
    ensures -1 <= j < |b|
    ensures j >= 0 ==> b[j].key == key
    ensures forall x :: 0 <= x < |b| && (j < 0 || x < j) ==> b[x].key != key
  {
    if |b| == 0 then -1
    else if b[0].key == key then 0
    else
      var j := KeyIndex(b[1..], key);
      if j < 0 then -1 else j + 1
  }

  /** The value paired with the first occurrence of `key`, or `None`. */
  function BucketGet<K(==), V>(b: seq<Entry<K, V>>, key: K): (r: Option<V>)
    ensures var j := KeyIndex(b, key); r == if j < 0 then None else Some(b[j].value)
  {
    if |b| == 0 then None
    else if b[0].key == key then Some(b[0].value)
    else BucketGet(b[1..], key)
  }

  /** Overwrite the value of the first pair with `key` in place, or append a new pair. */
  function BucketPut<K(==), V>(b: seq<Entry<K, V>>, key: K, value: V): (r: seq<Entry<K, V>>)
    ensures var j := KeyIndex(b, key);
      r == if j < 0 then b + [Entry(key, value)] else b[j := Entry(key, value)]
  {
    if |b| == 0 then [Entry(key, value)]
    else if b[0].key == key then [Entry(b[0].key, value)] + b[1..]
    else [b[0]] + BucketPut(b[1..], key, value)
  }

  /** Remove the first pair with `key`, reporting whether there was one. */
  function BucketRemove<K(==), V>(b: seq<Entry<K, V>>, key: K): (r: (seq<Entry<K, V>>, bool))
    ensures r.1 <==> KeyIndex(b, key) >= 0
    ensures !r.1 ==> r.0 == b
    ensures r.1 ==> r.0 == b[..KeyIndex(b, key)] + b[KeyIndex(b, key) + 1..]
  {
    if |b| == 0 then (b, false)
    else if b[0].key == key then
      assert b[..0] + b[1..] == b[1..];
      (b[1..], true)
    else
      var (rest, found) := BucketRemove(b[1..], key);
      BucketRemoveCons(b, key, rest, found);
      ([b[0]] + rest, found)
  }

  lemma BucketRemoveCons<K, V>(b: seq<Entry<K, V>>, key: K, rest: seq<Entry<K, V>>, found: bool)
    requires |b| > 0 && b[0].key != key
    requires found <==> KeyIndex(b[1..], key) >= 0
    requires !found ==> rest == b[1..]
    requires found ==> rest == b[1..][..KeyIndex(b[1..], key)] + b[1..][KeyIndex(b[1..], key) + 1..]
    ensures found <==> KeyIndex(b, key) >= 0
    ensures !found ==> [b[0]] + rest == b
    ensures found ==> [b[0]] + rest == b[..KeyIndex(b, key)] + b[KeyIndex(b, key) + 1..]
  {
    if found {
      RemovedFromTail(b, key);
    } else {
      assert [b[0]] + b[1..] == b;
    }
  }

  /** A key found in the tail at `j` is found in the whole bucket at `j + 1`. */
  lemma RemovedFromTail<K, V>(b: seq<Entry<K, V>>, key: K)
    requires |b| > 0 && b[0].key != key && KeyIndex(b[1..], key) >= 0
    ensures KeyIndex(b, key) == KeyIndex(b[1..], key) + 1
    ensures [b[0]] + (b[1..][..KeyIndex(b[1..], key)] + b[1..][KeyIndex(b[1..], key) + 1..])
      == b[..KeyIndex(b, key)] + b[KeyIndex(b, key) + 1..]
  {
    SpliceCons(b, KeyIndex(b[1..], key));
  }

  /** Removing position `j` of the tail, then putting the head back, removes position `j + 1`. */
  lemma SpliceCons<T>(b: seq<T>, j: int)
    requires 0 <= j < |b| - 1
    ensures [b[0]] + (b[1..][..j] + b[1..][j + 1..]) == b[..j + 1] + b[j + 2..]
  {
    assert [b[0]] + b[1..][..j] == b[..j + 1];
    assert b[1..][j + 1..] == b[j + 2..];
  }

  // Table operations.

  /** `insert`: always returns true; only the key's bucket changes. */
  function Insert<K(==), V>(t: Table<K, V>, hash: K -> int, key: K, value: V): (r: (Table<K, V>, bool))
    requires Shaped(t)
    ensures r.1
    ensures Shaped(r.0) && r.0.size == t.size
    ensures var i := HashFunction(t, hash, key);
      && (forall i' :: 0 <= i' < t.size && i' != i ==> r.0.buckets[i'] == t.buckets[i'])
      && (Get(t, hash, key).Some? ==> |r.0.buckets[i]| == |t.buckets[i]|)
      && (Get(t, hash, key).None? ==> r.0.buckets[i] == t.buckets[i] + [Entry(key, value)])
  {
    var i := HashFunction(t, hash, key);
    (t.(buckets := t.buckets[i := BucketPut(t.buckets[i], key, value)]), true)
  }

  /**
    `get`: the value stored for `key` in its bucket, or `None`. A value is
    found exactly when the key's bucket holds a pair with that key, and it is
    the value of such a pair.
   */
  function Get<K(==), V>(t: Table<K, V>, hash: K -> int, key: K): (r: Option<V>)
    requires Shaped(t)
    ensures var b := t.buckets[HashFunction(t, hash, key)];
      r.Some? <==> exists j :: 0 <= j < |b| && b[j].key == key
    ensures r.Some? ==> Entry(key, r.value) in t.buckets[HashFunction(t, hash, key)]
  {
    BucketGet(t.buckets[HashFunction(t, hash, key)], key)
  }

  /**
    `delete`: reports whether `key` was present; an absent key leaves the
    table unchanged, and only the key's bucket changes.
   */
  function Delete<K(==), V>(t: Table<K, V>, hash: K -> int, key: K): (r: (Table<K, V>, bool))
    requires Shaped(t)
    ensures r.1 <==> Get(t, hash, key).Some?
    ensures !r.1 ==> r.0 == t
    ensures Shaped(r.0) && r.0.size == t.size
    ensures var i := HashFunction(t, hash, key);
      && (forall i' :: 0 <= i' < t.size && i' != i ==> r.0.buckets[i'] == t.buckets[i'])
      && (r.1 ==> |r.0.buckets[i]| == |t.buckets[i]| - 1)
  {
    var i := HashFunction(t, hash, key);
    var (bucket, found) := BucketRemove(t.buckets[i], key);
    if found then (t.(buckets := t.buckets[i := bucket]), true) else (t, false)
  }

  // What the operations promise about lookups.

  lemma {:induction false} BucketPutGet<K, V>(b: seq<Entry<K, V>>, key: K, value: V, other: K)
    ensures BucketGet(BucketPut(b, key, value), other) ==
      if other == key then Some(value) else BucketGet(b, other)
  {
    if |b| > 0 {
      var b' := BucketPut(b, key, value);
      if b[0].key == key {
        assert b'[1..] == b[1..];
      } else {
        assert b'[1..] == BucketPut(b[1..], key, value);
        BucketPutGet(b[1..], key, value, other);
      }
    }
  }

  lemma {:induction false} BucketRemoveGet<K, V>(b: seq<Entry<K, V>>, key: K, other: K)
    requires other != key || UniqueKeys(b)
    ensures BucketGet(BucketRemove(b, key).0, other) ==
      if other == key then None else BucketGet(b, other)
  {
    if |b| > 0 {
      var b' := BucketRemove(b, key).0;
      if b[0].key == key {
        if other == key {
          assert KeyIndex(b[1..], key) == -1 by {
            forall x | 0 <= x < |b[1..]|
              ensures b[1..][x].key != key
            {
              assert b[1..][x] == b[x + 1];
            }
          }
        }
      } else {
        assert b'[1..] == BucketRemove(b[1..], key).0;
        BucketRemoveGet(b[1..], key, other);
      }
    }
  }

  /** Every key in a bucket after `BucketPut` is the new key or the key already at that position. */
  lemma BucketPutKeys<K, V>(b: seq<Entry<K, V>>, key: K, value: V)
    ensures var b' := BucketPut(b, key, value);
      forall x :: 0 <= x < |b'| ==> b'[x].key == key || (x < |b| && b'[x].key == b[x].key)
  {
  }

  lemma BucketPutKeepsKeysUnique<K, V>(b: seq<Entry<K, V>>, key: K, value: V)
    requires UniqueKeys(b)
    ensures UniqueKeys(BucketPut(b, key, value))
  {
    var b' := BucketPut(b, key, value);
    forall x, y | 0 <= x < y < |b'|
      ensures b'[x].key != b'[y].key
    {
      if y < |b| {
        assert b'[x].key == b[x].key && b'[y].key == b[y].key;
      }
    }
  }

  /** `insert(k, v)` then `get(k)` gives `v`. */
  lemma InsertThenGet<K, V>(t: Table<K, V>, hash: K -> int, key: K, value: V)
    requires Shaped(t)
    ensures Get(Insert(t, hash, key, value).0, hash, key) == Some(value)
  {
    BucketPutGet(t.buckets[HashFunction(t, hash, key)], key, value, key);
  }

  /** `insert(k, _)` leaves `get(k')` unchanged for every other key `k'`. */
  lemma InsertFrame<K, V>(t: Table<K, V>, hash: K -> int, key: K, value: V, other: K)
    requires Shaped(t) && other != key
    ensures Get(Insert(t, hash, key, value).0, hash, other) == Get(t, hash, other)
  {
    BucketPutGet(t.buckets[HashFunction(t, hash, key)], key, value, other);
  }

  /** In a valid table, `delete(k)` then `get(k)` gives `None`. */
  lemma DeleteThenGet<K, V>(t: Table<K, V>, hash: K -> int, key: K)
    requires Valid(t, hash)
    ensures Get(Delete(t, hash, key).0, hash, key) == None
  {
    BucketRemoveGet(t.buckets[HashFunction(t, hash, key)], key, key);
  }

  /** `delete(k)` leaves `get(k')` unchanged for every other key `k'`. */
  lemma DeleteFrame<K, V>(t: Table<K, V>, hash: K -> int, key: K, other: K)
    requires Shaped(t) && other != key
    ensures Get(Delete(t, hash, key).0, hash, other) == Get(t, hash, other)
  {
    BucketRemoveGet(t.buckets[HashFunction(t, hash, key)], key, other);
  }

  // The table invariant.

  /** A new table satisfies the invariant, stores nothing, and `get` finds nothing in it. */
  lemma NewTableIsEmpty<K, V>(size: int, hash: K -> int, key: K)
    requires size > 0
    ensures Valid(NewTable<K, V>(size), hash)
    ensures Contents(NewTable<K, V>(size)) == map[]
    ensures Get(NewTable<K, V>(size), hash, key) == None
  {
    EmptyBucketsStoreNothing(NewTable<K, V>(size).buckets);
  }

  /** In a valid table no key is stored twice, in the same bucket or in different ones. */
  lemma ValidKeysAreUnique<K, V>(t: Table<K, V>, hash: K -> int, i: int, j: int, i': int, j': int)
    requires Valid(t, hash)
    requires 0 <= i < |t.buckets| && 0 <= j < |t.buckets[i]|
    requires 0 <= i' < |t.buckets| && 0 <= j' < |t.buckets[i']|
    requires t.buckets[i][j].key == t.buckets[i'][j'].key
    ensures i == i' && j == j'
  {
    assert HashFunction(t, hash, t.buckets[i][j].key) == i;
    assert HashFunction(t, hash, t.buckets[i'][j'].key) == i';
  }

  lemma InsertPreservesValid<K, V>(t: Table<K, V>, hash: K -> int, key: K, value: V)
    requires Valid(t, hash)
    ensures Valid(Insert(t, hash, key, value).0, hash)
  {
    var i := HashFunction(t, hash, key);
    var b := t.buckets[i];
    var b' := BucketPut(b, key, value);
    var t' := Insert(t, hash, key, value).0;
    assert t'.buckets == t.buckets[i := b'];
    BucketPutKeys(b, key, value);
    BucketPutKeepsKeysUnique(b, key, value);
    forall i', j | 0 <= i' < |t'.buckets| && 0 <= j < |t'.buckets[i']|
      ensures HashFunction(t', hash, t'.buckets[i'][j].key) == i'
    {
      if i' == i && b'[j].key != key {
        assert b'[j].key == t.buckets[i][j].key;
      }
    }
  }

  /** After `BucketRemove` finds `key` at `j`, the pairs before `j` stay and the later ones move down by one. */
  lemma BucketRemoveShifts<K, V>(b: seq<Entry<K, V>>, key: K)
    ensures var b' := BucketRemove(b, key).0;
      var j := KeyIndex(b, key);
      j >= 0 ==>
        && |b'| == |b| - 1
        && (forall x :: 0 <= x < j ==> b'[x] == b[x])
        && (forall x :: j <= x < |b'| ==> b'[x] == b[x + 1])
  {
  }

  /** Dropping one pair from a bucket without repeated keys leaves none. */
  lemma DropKeepsKeysUnique<K, V>(b: seq<Entry<K, V>>, b': seq<Entry<K, V>>, j: int)
    requires UniqueKeys(b) && 0 <= j < |b| && |b'| == |b| - 1
    requires forall x :: 0 <= x < j ==> b'[x] == b[x]
    requires forall x :: j <= x < |b'| ==> b'[x] == b[x + 1]
    ensures UniqueKeys(b')
  {
    forall x, y | 0 <= x < y < |b'|
      ensures b'[x].key != b'[y].key
    {
      var x0 := if x < j then x else x + 1;
      var y0 := if y < j then y else y + 1;
      assert b'[x] == b[x0];
      assert b'[y] == b[y0];
    }
  }

  lemma BucketRemoveKeepsKeysUnique<K, V>(b: seq<Entry<K, V>>, key: K)
    requires UniqueKeys(b)
    ensures UniqueKeys(BucketRemove(b, key).0)
  {
    var j := KeyIndex(b, key);
    BucketRemoveShifts(b, key);
    if j >= 0 {
      DropKeepsKeysUnique(b, BucketRemove(b, key).0, j);
    }
  }

  lemma DeletePreservesValid<K, V>(t: Table<K, V>, hash: K -> int, key: K)
    requires Valid(t, hash)
    ensures Valid(Delete(t, hash, key).0, hash)
  {
    var i := HashFunction(t, hash, key);
    var b := t.buckets[i];
    var (b', found) := BucketRemove(b, key);
    BucketRemoveKeepsKeysUnique(b, key);
    BucketRemoveShifts(b, key);
    if found {
      var t' := Delete(t, hash, key).0;
      assert t'.buckets == t.buckets[i := b'];
      var removed := KeyIndex(b, key);
      forall i', j | 0 <= i' < |t'.buckets| && 0 <= j < |t'.buckets[i']|
        ensures HashFunction(t', hash, t'.buckets[i'][j].key) == i'
      {
        if i' == i {
          var j0 := if j < removed then j else j + 1;
          assert b'[j] == t.buckets[i][j0];
        }
      }
    }
  }

  // The table as a map from keys to values, independent of the hash function.

  function Lookup<K, V>(m: map<K, V>, key: K): Option<V> {
    if key in m then Some(m[key]) else None
  }

  /** The pairs of one bucket as a map; where a key repeats, its first pair wins, as in `get`. */
  function BucketMap<K, V>(b: seq<Entry<K, V>>): map<K, V> {
    if |b| == 0 then map[]
    else BucketMap(b[1..])[b[0].key := b[0].value]
  }

  lemma {:induction false} BucketMapLookup<K, V>(b: seq<Entry<K, V>>, key: K)
    ensures Lookup(BucketMap(b), key) == BucketGet(b, key)
  {
    if |b| > 0 {
      BucketMapLookup(b[1..], key);
    }
  }

  /** The union of the bucket maps of `buckets`. */
  function BucketsMap<K, V>(buckets: seq<seq<Entry<K, V>>>): map<K, V> {
    if |buckets| == 0 then map[]
    else BucketsMap(buckets[..|buckets| - 1]) + BucketMap(buckets[|buckets| - 1])
  }

  lemma {:induction false} EmptyBucketsStoreNothing<K, V>(buckets: seq<seq<Entry<K, V>>>)
    requires forall i :: 0 <= i < |buckets| ==> buckets[i] == []
    ensures BucketsMap(buckets) == map[]
  {
    if |buckets| > 0 {
      EmptyBucketsStoreNothing(buckets[..|buckets| - 1]);
    }
  }

  /** The key/value map a table stores. */
  function Contents<K, V>(t: Table<K, V>): map<K, V> {
    BucketsMap(t.buckets)
  }

  /**
    When every pair with `key` sits in bucket `home`, the union of the bucket
    maps finds `key` exactly where that bucket does.
   */
  lemma {:induction false} BucketsMapLookup<K, V>(buckets: seq<seq<Entry<K, V>>>, key: K, home: int)
    requires forall i, j :: 0 <= i < |buckets| && 0 <= j < |buckets[i]| && buckets[i][j].key == key ==> i == home
    ensures Lookup(BucketsMap(buckets), key) == if 0 <= home < |buckets| then BucketGet(buckets[home], key) else None
  {
    if |buckets| > 0 {
      var n := |buckets| - 1;
      var init := buckets[..n];
      BucketsMapLookup(init, key, if home == n then -1 else home);
      BucketMapLookup(buckets[n], key);
      if home != n {
        assert KeyIndex(buckets[n], key) < 0;
      }
    }
  }

  /** In a valid table, `get` reads the table's map. */
  lemma GetIsContents<K, V>(t: Table<K, V>, hash: K -> int, key: K)
    requires Valid(t, hash)
    ensures Get(t, hash, key) == Lookup(Contents(t), key)
  {
    BucketsMapLookup(t.buckets, key, HashFunction(t, hash, key));
  }

  lemma MapsAgreeEverywhere<K, V>(m1: map<K, V>, m2: map<K, V>)
    requires forall key :: Lookup(m1, key) == Lookup(m2, key)
    ensures m1 == m2
  {
    assert forall key :: key in m1 <==> Lookup(m1, key).Some?;
    assert forall key :: key in m2 <==> Lookup(m2, key).Some?;
  }

  /** `insert(k, v)` on a valid table stores `k` with value `v` and nothing else changes. */
  lemma InsertContents<K, V>(t: Table<K, V>, hash: K -> int, key: K, value: V)
    requires Valid(t, hash)
    ensures Contents(Insert(t, hash, key, value).0) == Contents(t)[key := value]
  {
    var t' := Insert(t, hash, key, value).0;
    InsertPreservesValid(t, hash, key, value);
    forall other
      ensures Lookup(Contents(t'), other) == Lookup(Contents(t)[key := value], other)
    {
      GetIsContents(t', hash, other);
      GetIsContents(t, hash, other);
      if other == key {
        InsertThenGet(t, hash, key, value);
      } else {
        InsertFrame(t, hash, key, value, other);
      }
    }
    MapsAgreeEverywhere(Contents(t'), Contents(t)[key := value]);
  }

  /** `delete(k)` on a valid table removes `k` and nothing else. */
  lemma DeleteContents<K, V>(t: Table<K, V>, hash: K -> int, key: K)
    requires Valid(t, hash)
    ensures Contents(Delete(t, hash, key).0) == Contents(t) - {key}
  {
    var t' := Delete(t, hash, key).0;
    DeletePreservesValid(t, hash, key);
    forall other
      ensures Lookup(Contents(t'), other) == Lookup(Contents(t) - {key}, other)
    {
      GetIsContents(t', hash, other);
      GetIsContents(t, hash, other);
      if other == key {
        DeleteThenGet(t, hash, key);
      } else {
        DeleteFrame(t, hash, key, other);
      }
    }
    MapsAgreeEverywhere(Contents(t'), Contents(t) - {key});
  }
}
