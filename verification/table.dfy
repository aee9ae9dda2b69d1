/**
  The abstract value of a hash table: one chain per bucket. The operations
  of hashmap.go are stated here on that value; the class in module Hashmap
  is proved to change its buckets exactly as these functions say.
 */
module Table {
  import opened Hashing
  import opened Chains

  /** Bucket `b` holds the chain `t[b]`; `|t|` is the table's size. */
  type Buckets = seq<seq<Entry>>

  /**
    Insert, Get and Delete on `key` do not panic in a table of `n` buckets:
    the size is positive (no `%` by zero) and the hash is an index of the
    bucket slice. `n` is a Go `int`.
   */
  predicate Addressable(n: int, key: int) {
    0 < n <= MaxInt && HashFunction(key, n) < n
  }

  /** Every entry sits in the bucket its key hashes to. */
  predicate WellPlaced(t: Buckets) {
    |t| <= MaxInt &&
    forall b, j :: 0 <= b < |t| && 0 <= j < |t[b]| ==> HashFunction(t[b][j].0, |t|) == b
  }

  /** A table of `n` empty buckets. */
  function Empty(n: nat): (t: Buckets)
    ensures |t| == n && forall b :: 0 <= b < n ==> t[b] == []
  {
    seq(n, _ => [])
  }

  /** Insert: append `(key, value)` to the tail of the chain `key` hashes to. */
  function Put(t: Buckets, key: int, value: string): (r: Buckets)
    requires Addressable(|t|, key)
    ensures |r| == |t|
    ensures WellPlaced(t) ==> WellPlaced(r)
  {
    var h := HashFunction(key, |t|);
    t[h := t[h] + [(key, value)]]
  }

  /** Get: the first entry with `key` in the chain `key` hashes to. */
  function Find(t: Buckets, key: int): (r: Option<string>)
    requires Addressable(|t|, key)
    ensures r.None? <==> Absent(t[HashFunction(key, |t|)], key)
    ensures r.Some? ==> (key, r.value) in t[HashFunction(key, |t|)]
  {
    Lookup(t[HashFunction(key, |t|)], key)
  }

  /** Delete: unlink the first entry with `key` from the chain `key` hashes to. */
  function Remove(t: Buckets, key: int): (r: Buckets)
    requires Addressable(|t|, key)
    ensures |r| == |t|
    ensures WellPlaced(t) ==> WellPlaced(r)
  {
    var h := HashFunction(key, |t|);
    var c := RemoveFirst(t[h], key);
    assert WellPlaced(t) ==> forall j :: 0 <= j < |c| ==> HashFunction(c[j].0, |t|) == h by {
      if WellPlaced(t) {
        forall j | 0 <= j < |c| ensures HashFunction(c[j].0, |t|) == h {
          assert c[j] in t[h];
        }
      }
    }
    t[h := c]
  }

  /** In a table that respects the placement invariant, Find agrees with a search of every bucket. */
  lemma FindAgreesWithSearch(t: Buckets, key: int)
    requires WellPlaced(t) && Addressable(|t|, key)
    ensures Find(t, key).None? <==> forall b, j :: 0 <= b < |t| && 0 <= j < |t[b]| ==> t[b][j].0 != key
    ensures Find(t, key).Some? ==> exists b, j :: 0 <= b < |t| && 0 <= j < |t[b]| && t[b][j] == (key, Find(t, key).value)
  {
    var h := HashFunction(key, |t|);
    if Find(t, key).Some? {
      var j :| 0 <= j < |t[h]| && t[h][j] == (key, Find(t, key).value);
    }
  }

  /** A new table finds nothing. */
  lemma FindEmpty(n: nat, key: int)
    requires Addressable(n, key)
    ensures Find(Empty(n), key) == None
  {
  }

  /**
    Insert never overwrites: a key already present keeps its first value,
    and an absent key afterwards maps to the inserted value.
   */
  lemma PutKeepsFirst(t: Buckets, key: int, value: string)
    requires Addressable(|t|, key)
    ensures Find(Put(t, key, value), key) == if Find(t, key).Some? then Find(t, key) else Some(value)
  {
    LookupAppend(t[HashFunction(key, |t|)], key, value, key);
  }

  /** Insert on one key leaves the lookup of every other key alone, colliding or not. */
  lemma PutOther(t: Buckets, key: int, value: string, other: int)
    requires Addressable(|t|, key) && Addressable(|t|, other) && other != key
    ensures Find(Put(t, key, value), other) == Find(t, other)
  {
    var h, g := HashFunction(key, |t|), HashFunction(other, |t|);
    if h == g {
      LookupAppend(t[h], key, value, other);
    }
  }

  /** Delete of a key that is not there changes nothing. */
  lemma RemoveAbsent(t: Buckets, key: int)
    requires Addressable(|t|, key) && Find(t, key).None?
    ensures Remove(t, key) == t
  {
    var h := HashFunction(key, |t|);
    assert t[h := t[h]] == t;
  }

  /** Delete on one key leaves the lookup of every other key alone, colliding or not. */
  lemma RemoveOther(t: Buckets, key: int, other: int)
    requires Addressable(|t|, key) && Addressable(|t|, other) && other != key
    ensures Find(Remove(t, key), other) == Find(t, other)
  {
    var h, g := HashFunction(key, |t|), HashFunction(other, |t|);
    if h == g {
      LookupRemoveOther(t[h], key, other);
    }
  }

  /** Inserting an absent key and deleting it again restores the table, so Get misses. */
  lemma RemoveUndoesPut(t: Buckets, key: int, value: string)
    requires Addressable(|t|, key) && Find(t, key).None?
    ensures Remove(Put(t, key, value), key) == t
    ensures Find(Remove(Put(t, key, value), key), key).None?
  {
    var h := HashFunction(key, |t|);
    RemoveFirstAppend(t[h], (key, value), key);
    assert t[h := t[h]] == t;
  }

  /**
    Two inserts of one key: Get sees the first value; one Delete unlinks
    the first entry only and uncovers the second.
   */
  lemma DuplicateKeys(t: Buckets, key: int, a: string, b: string)
    requires Addressable(|t|, key) && Find(t, key).None?
    ensures Find(Put(Put(t, key, a), key, b), key) == Some(a)
    ensures Find(Remove(Put(Put(t, key, a), key, b), key), key) == Some(b)
  {
    var h := HashFunction(key, |t|);
    var c := t[h];
    LookupAppend(c, key, a, key);
    LookupAppend(c + [(key, a)], key, b, key);
    RemoveFirstAppend(c + [(key, a)], (key, b), key);
    RemoveFirstAppend(c, (key, a), key);
    LookupAppend(c, key, b, key);
  }
}
