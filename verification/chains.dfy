/**
  The abstract content of one bucket: its chain of entries, head first.
  Insert appends at the tail, Get reads the first entry with the key and
  Delete unlinks that first entry, so a chain behaves as a list in which a
  key may occur more than once and its oldest occurrence is the visible one.
 */
module Chains {

  /** One stored (key, value) pair of hashmap.go's `Node`. */
  type Entry = (int, string)

  datatype Option<T> = None | Some(value: T) {
    /** The value, or `default` when there is none. */
    function GetOr(default: T): T {
      match this
      case Some(v) => v
      case None => default
    }
  }

  /** No entry of the chain carries `key`. */
  predicate Absent(c: seq<Entry>, key: int) {
    forall j :: 0 <= j < |c| ==> c[j].0 != key
  }

  /** The value of the first entry of the chain whose key is `key`. */
  function Lookup(c: seq<Entry>, key: int): (r: Option<string>)
    ensures r.None? <==> Absent(c, key)
    ensures r.Some? ==> (key, r.value) in c
  {
    if c == [] then None
    else if c[0].0 == key then Some(c[0].1)
    else Lookup(c[1..], key)
  }

  /** The chain without its first entry whose key is `key`. */
  function RemoveFirst(c: seq<Entry>, key: int): (r: seq<Entry>)
    ensures Absent(c, key) ==> r == c
    ensures !Absent(c, key) ==> |r| == |c| - 1
    ensures forall e :: e in r ==> e in c
  {
    if c == [] then []
    else if c[0].0 == key then c[1..]
    else [c[0]] + RemoveFirst(c[1..], key)
  }

  /** Lookup finds the entry at the first position `j` that carries the key. */
  lemma {:induction false} LookupAt(c: seq<Entry>, key: int, j: nat)
    requires j < |c| && c[j].0 == key && Absent(c[..j], key)
    ensures Lookup(c, key) == Some(c[j].1)
  {
    if j > 0 {
      assert c[0] == c[..j][0];
      assert c[1..][..j - 1] == c[..j][1..];
      LookupAt(c[1..], key, j - 1);
    }
  }

  /**
    RemoveFirst unlinks exactly the entry at the first position `j` that
    carries the key and keeps the others in their order.
   */
  lemma {:induction false} RemoveFirstAt(c: seq<Entry>, key: int, j: nat)
    requires j < |c| && c[j].0 == key && Absent(c[..j], key)
    ensures RemoveFirst(c, key) == c[..j] + c[j + 1..]
  {
    if j > 0 {
      assert c[0] == c[..j][0];
      assert c[1..][..j - 1] == c[..j][1..];
      RemoveFirstAt(c[1..], key, j - 1);
      assert c[..j] + c[j + 1..] == [c[0]] + (c[1..][..j - 1] + c[1..][j..]);
    }
  }

  /** Appending an entry never hides an existing one: the oldest entry still wins. */
  lemma {:induction false} LookupAppend(c: seq<Entry>, k: int, v: string, key: int)
    ensures Lookup(c + [(k, v)], key) ==
      if Lookup(c, key).Some? then Lookup(c, key)
      else if key == k then Some(v)
      else None
  {
    if c != [] {
      assert (c + [(k, v)])[1..] == c[1..] + [(k, v)];
      LookupAppend(c[1..], k, v, key);
    }
  }

  /** Removing the first `key` entry after an append, expressed on the old chain. */
  lemma {:induction false} RemoveFirstAppend(c: seq<Entry>, x: Entry, key: int)
    ensures RemoveFirst(c + [x], key) ==
      if !Absent(c, key) then RemoveFirst(c, key) + [x]
      else if x.0 == key then c
      else c + [x]
  {
    if c == [] {
      assert [x][1..] == [];
    } else {
      assert (c + [x])[1..] == c[1..] + [x];
      RemoveFirstAppend(c[1..], x, key);
      if c[0].0 != key {
        assert Absent(c[1..], key) ==> Absent(c, key);
      }
    }
  }

  /** Removing an entry of one key leaves the lookup of every other key as it was. */
  lemma {:induction false} LookupRemoveOther(c: seq<Entry>, k: int, key: int)
    requires key != k
    ensures Lookup(RemoveFirst(c, k), key) == Lookup(c, key)
  {
    if c != [] && c[0].0 != k {
      LookupRemoveOther(c[1..], k, key);
      assert ([c[0]] + RemoveFirst(c[1..], k))[1..] == RemoveFirst(c[1..], k);
    }
  }
}
