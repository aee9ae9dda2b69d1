# Separately chained hash table (`hashmap` package), modelled in Dafny

The package `hashmap` holds a fixed-size hash table from `int` keys to
`string` values. `NewHashMap(size)` allocates `size` bucket heads. A key
goes to bucket `uint(key % size)`. Each bucket heads a singly linked chain
of `Node{Key, Value, Next}`.

- `Insert` walks to the tail of its bucket's chain and appends a node. It
  never looks for an existing entry with the same key.
- `Get` returns the value of the first node in chain order with the key,
  or `""`.
- `Delete` unlinks that first node. It moves the bucket head or relinks
  `prev.Next`. Deleting an absent key does nothing.

The model has four modules:

- `Hashing` (hashing.dfy): `hashFunction` as Go computes it. Go's `%`
  truncates toward zero. The conversion to `uint` wraps a negative remainder
  modulo 2^64. Both steps are written out explicitly.
- `Chains` (chains.dfy): one bucket's chain as a sequence of `(key, value)`
  entries, head first. `Lookup` gives the first match and `RemoveFirst`
  unlinks the first match. Lemmas relate both to appending.
- `Table` (table.dfy): the abstract table, one chain per bucket, with
  `Put`, `Find` and `Remove` for Insert, Get and Delete. It has the
  placement invariant (every entry sits in the bucket its key hashes to)
  and the lemmas about sequences of operations.
- `Hashmap` (hashmap.dfy): the imperative table. The class `HashMap` has a
  `const size` and a `const buckets: array<Link>`, which is the slice
  fixed at construction. Go's `*Node` pointers become indices into an arena
  `nodes: seq<Node>` (`Link = Nil | At(index)`), so `prev.Next = ...` is an
  update of one arena cell. The ghost fields `Cells` (the arena cells of
  each chain) and `Contents` (the entries of each chain) are tied to the
  arena by `Valid()`. `Insert`, `Get` and `Delete` are `while` loops that
  mirror the Go cursor loops (`current`, and `prev` in Delete). Each is
  proved against `Table.Put`, `Table.Find` and `Table.Remove`.

Panics are preconditions. `%` by zero and an out-of-range bucket index
both panic in Go. So Insert, Get and Delete require
`Table.Addressable(size, key)`: `size > 0` and the hash is a valid index.
`Hashing.HashInRangeIff` shows this holds exactly when the key is
non-negative or a multiple of `size`. That is wider than "key ≥ 0": Go also
accepts a negative key that `size` divides, such as `-10` in a table of
size 10. On such a key the Go hash is `0`, the same as Dafny's `%`.

Choices about the Go code:

- `NewHashMap(0)` succeeds in Go, and `% 0` panics only at the first
  Insert, Get or Delete. So the constructor accepts `size = 0` and the
  operations require `size > 0`.
- `Get` returns `""` for a missing key and for a stored empty string alike.
  `Table.Find` keeps the `Option`, and `HashMap.Get` returns
  `Find(...).GetOr("")`, as the code does.
- For a negative key the code has no normalisation policy: it panics
  unless `size` divides the key. The model states exactly that condition.

## Model

| member | source | states |
|---|---|---|
| `Hashing.GoRem` | hashmap/hashmap.go:22 | Go's `key % size`: magnitude below `size`, sign of the dividend when non-zero, and in the same residue class as Dafny's Euclidean `%` |
| `Hashing.HashFunction` | hashmap/hashmap.go:21-23 | `uint(key % size)` is a 64-bit word; it is below `size` exactly when Go's remainder is non-negative |
| `Hashing.HashIsBucketIndex` | hashmap/hashmap.go:21-23 | for `key >= 0` and `size > 0` the hash equals `key % size` and is a valid bucket index |
| `Hashing.HashInRangeIff` | hashmap/hashmap.go:21-23 | the hash indexes the bucket slice iff `key >= 0` or `size` divides `key`; when it does, it equals `key % size` (every other key panics at the bucket indexing) |
| `Chains.Lookup` | hashmap/hashmap.go:62-77 | the chain walk finds nothing iff no entry has the key; a value found belongs to an entry with the key |
| `Chains.RemoveFirst` | hashmap/hashmap.go:89-111 | without a matching entry the chain is unchanged; otherwise exactly one entry goes and no entry is invented |
| `Chains.LookupAt` | hashmap/hashmap.go:62-71 | Get returns the value at the first position holding the key |
| `Chains.RemoveFirstAt` | hashmap/hashmap.go:89-106 | Delete removes exactly the entry at the first position holding the key; the others keep their order |
| `Chains.LookupAppend` | hashmap/hashmap.go:36-50 | appending to a chain never hides an earlier entry: lookup after the append is the old result, else the appended value for its key |
| `Chains.RemoveFirstAppend` | hashmap/hashmap.go:89-111 | deleting after an append acts on the old chain first; an appended entry goes only if no earlier entry had its key |
| `Chains.LookupRemoveOther` | hashmap/hashmap.go:89-110 | deleting one key leaves the lookup of every other key in the chain unchanged |
| `Table.Empty` | hashmap/hashmap.go:14-19 | a new table has exactly `size` buckets, all empty |
| `Table.Put` | hashmap/hashmap.go:26-52 | Insert (append at the tail of the key's bucket) keeps every entry in the bucket its key hashes to, and keeps the bucket count |
| `Table.Find` | hashmap/hashmap.go:54-78 | Get on the abstract table: the lookup in the chain at `hashFunction(key, size)` misses iff no entry of that chain has the key, and a hit is an entry of that chain; `Chains.Lookup`, `Chains.LookupAt` and `Table.FindAgreesWithSearch` pin it to the first match and to a search of the whole table |
| `Table.Remove` | hashmap/hashmap.go:80-112 | Delete keeps every entry in the bucket its key hashes to, and keeps the bucket count |
| `Table.FindAgreesWithSearch` | hashmap/hashmap.go:54-78 | on a well-placed table, looking only in the key's bucket misses iff no bucket holds the key, and a hit is an entry stored somewhere in the table |
| `Table.FindEmpty` | hashmap/hashmap.go:14-19 | a fresh table finds no key |
| `Table.PutKeepsFirst` | hashmap/hashmap.go:36-50 | Insert never overwrites: a present key keeps its first value, and an absent key then maps to the inserted value |
| `Table.PutOther` | hashmap/hashmap.go:26-52 | Insert on one key does not change Get of any other key, whether or not they collide |
| `Table.RemoveAbsent` | hashmap/hashmap.go:89-111 | Delete of an absent key leaves every bucket unchanged |
| `Table.RemoveOther` | hashmap/hashmap.go:80-112 | Delete of one key does not change Get of any other key, whether or not they collide |
| `Table.RemoveUndoesPut` | hashmap/hashmap.go:80-112 | Insert of an absent key followed by its Delete restores the table, so Get then misses |
| `Table.DuplicateKeys` | hashmap/hashmap.go:36-71 | after Insert(k, a) and Insert(k, b), Get(k) is a; after one Delete(k), Get(k) is b |
| `Hashmap.LinkFirst` | hashmap/hashmap.go:36-37 | pointing an empty bucket's head at the new node makes that bucket's chain the single new entry; the arena stays consistent |
| `Hashmap.LinkTail` | hashmap/hashmap.go:44-50 | setting the tail node's `Next` to the new node appends it to that chain only; other chains and disjointness are kept |
| `Hashmap.UnlinkHead` | hashmap/hashmap.go:93-96 | moving the bucket head to `current.Next` drops the first node of that chain only |
| `Hashmap.UnlinkAfter` | hashmap/hashmap.go:97-102 | setting `prev.Next = current.Next` drops exactly the node at `current` from that chain only |
| `Hashmap.HashMap.constructor` | hashmap/hashmap.go:14-19 | `NewHashMap(size)` gives a fresh slice of `size` empty buckets; `size` is a `const` and no method changes it |
| `Hashmap.HashMap.Insert` | hashmap/hashmap.go:26-52 | the new contents are `Table.Put(old contents)`: the key's chain gets `(key, value)` at the tail and all other buckets are unchanged; the invariant is kept |
| `Hashmap.HashMap.Get` | hashmap/hashmap.go:54-78 | returns the value of the first entry with the key in its bucket's chain, or `""`; it modifies nothing |
| `Hashmap.HashMap.Delete` | hashmap/hashmap.go:80-112 | the new contents are `Table.Remove(old contents)`: the first entry with the key is unlinked, order is kept, other buckets are unchanged, and an absent key changes nothing |
| `Hashmap.CustomerExample` | main.go:42-56 | the driver's pattern of ten buckets loaded by successive Inserts; with an added scenario of two customers, Get returns "Alice", "" for a missing key, "" after deleting Alice, and "Bob" still present |
| `Hashmap.DuplicateExample` | hashmap/hashmap.go:26-112 | with one bucket and two inserts of one key, Get sees the older value and after one Delete the newer one |

## Left out

- main.go: reading `bank_data.json`, JSON decoding and printing are I/O
  around the table. Only its pattern of ten buckets loaded by Insert is
  kept, in `Hashmap.CustomerExample`; its `Get(10000)` depends on the file's
  contents.
- The `Account` and `Transaction` types in main.go are unused, and their
  amounts are floating point.
- Panics are not modelled as outcomes. A negative size (`make` panics), a
  zero size at first use (`%` by zero) and a key whose hash falls outside
  the slice are preconditions.
- `Hashing.GoRem` and `Hashing.HashFunction` require a positive divisor.
  Go's `%` also accepts a negative one, but no table can have a negative
  size.
- `Hashing.HashFunction` models `uint` as 64 bits. On a 32-bit platform Go's
  `int` and `uint` are 32 bits wide. The conclusion of
  `HashInRangeIff` is the same there, but it is not proved for that width.
- Keys are unbounded integers. Go's `int` stops at 64 bits, so the model
  admits keys Go cannot hold. The constructor's `size <= MaxInt` is the
  `int` bound.
- Pointer identity, aliasing and garbage collection: unlinked nodes stay in
  the arena, unreachable, where Go's collector would free them. No
  operation can observe the difference.
- Concurrency: the table has no locking, and the model is sequential.
