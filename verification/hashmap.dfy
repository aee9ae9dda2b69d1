/**
  The separately chained hash table of hashmap/hashmap.go.

  Go's `*Node` pointers become indices into an arena of nodes owned by the
  table: `Link` is a nullable pointer, `nodes[i]` is the node it points to,
  and writing `prev.Next` is an update of one arena cell. The bucket slice
  is an array created once by the constructor. Ghost fields give the
  public view: `Contents` (the entries of each chain, head first, an
  abstract table of module Table) and `Cells` (the arena cells that make
  up each chain, in the same order).
 */
module Hashmap {
  import opened Hashing
  import opened Chains
  import Table

  /** A `*Node`: nil, or the arena cell of a node. */
  datatype Link = Nil | At(index: nat)

  /** hashmap.go's `Node`. */
  datatype Node = Node(key: int, value: string, next: Link)

  /** The link to the first of `cells`. */
  function HeadOf(cells: seq<nat>): Link {
    if cells == [] then Nil else At(cells[0])
  }

  /** The link held by the node at position `j` of a chain laid out in `cells`. */
  function After(cells: seq<nat>, j: nat): Link
    requires j < |cells|
  {
    if j + 1 < |cells| then At(cells[j + 1]) else Nil
  }

  /**
    Following the links from `head` visits exactly `cells`, whose nodes
    hold `entries`, and ends in nil.
   */
  ghost predicate Linked(nodes: seq<Node>, head: Link, cells: seq<nat>, entries: seq<Entry>) {
    |cells| == |entries| && head == HeadOf(cells) &&
    (forall j :: 0 <= j < |cells| ==> cells[j] < |nodes|) &&
    forall j {:trigger nodes[cells[j]]} :: 0 <= j < |cells| ==>
      nodes[cells[j]] == Node(entries[j].0, entries[j].1, After(cells, j))
  }

  /** No arena cell belongs to two chains, or twice to one chain. */
  ghost predicate Disjoint(chains: seq<seq<nat>>) {
    forall b1, j1, b2, j2 ::
      0 <= b1 < |chains| && 0 <= j1 < |chains[b1]| && 0 <= b2 < |chains| && 0 <= j2 < |chains[b2]| &&
      chains[b1][j1] == chains[b2][j2]
      ==> b1 == b2 && j1 == j2
  }

  /** A chain stays linked when the arena grows. */
  lemma LinkedGrow(nodes: seq<Node>, head: Link, cells: seq<nat>, entries: seq<Entry>, x: Node)
    requires Linked(nodes, head, cells, entries)
    ensures Linked(nodes + [x], head, cells, entries)
  {
  }

  /** A chain stays linked when a cell outside it is overwritten. */
  lemma LinkedFrame(nodes: seq<Node>, head: Link, cells: seq<nat>, entries: seq<Entry>, p: nat, x: Node)
    requires Linked(nodes, head, cells, entries) && p < |nodes| && p !in cells
    ensures Linked(nodes[p := x], head, cells, entries)
  {
    forall j | 0 <= j < |cells| ensures cells[j] != p {
      assert cells[j] in cells;
    }
  }

  /** Pointing the tail of a chain at a fresh node appends that node's entry to the chain. */
  lemma LinkedAppend(nodes: seq<Node>, head: Link, cells: seq<nat>, entries: seq<Entry>, n: nat)
    requires Linked(nodes, head, cells, entries) && cells != []
    requires forall j :: 0 <= j < |cells| - 1 ==> cells[j] != cells[|cells| - 1]
    requires n < |nodes| && n !in cells && nodes[n].next == Nil
    ensures
      var p := cells[|cells| - 1];
      Linked(nodes[p := nodes[p].(next := At(n))], head, cells + [n], entries + [(nodes[n].key, nodes[n].value)])
  {
    assert forall j :: 0 <= j < |cells| ==> cells[j] != n;
  }

  /** Moving the bucket head to the second node unlinks the first. */
  lemma LinkedRemoveHead(nodes: seq<Node>, head: Link, cells: seq<nat>, entries: seq<Entry>)
    requires Linked(nodes, head, cells, entries) && cells != []
    ensures Linked(nodes, nodes[cells[0]].next, cells[1..], entries[1..])
  {
  }

  /** Relinking the node before position `j` past it unlinks the node at `j`. */
  lemma LinkedRemoveAfter(nodes: seq<Node>, head: Link, cells: seq<nat>, entries: seq<Entry>, j: nat)
    requires Linked(nodes, head, cells, entries) && 0 < j < |cells|
    requires forall i :: 0 <= i < |cells| && i != j - 1 ==> cells[i] != cells[j - 1]
    ensures
      var p := cells[j - 1];
      Linked(nodes[p := nodes[p].(next := nodes[cells[j]].next)], head,
             cells[..j] + cells[j + 1..], entries[..j] + entries[j + 1..])
  {
    var p := cells[j - 1];
    var nodes' := nodes[p := nodes[p].(next := nodes[cells[j]].next)];
    var cells' := cells[..j] + cells[j + 1..];
    var entries' := entries[..j] + entries[j + 1..];
    forall i | 0 <= i < |cells'|
      ensures cells'[i] < |nodes'| && nodes'[cells'[i]] == Node(entries'[i].0, entries'[i].1, After(cells', i))
    {
      if i < j - 1 {
        assert cells'[i] == cells[i] && cells'[i + 1] == cells[i + 1];
      } else if i == j - 1 {
        assert cells'[i] == p;
      } else {
        assert cells'[i] == cells[i + 1];
      }
    }
  }

  /** Appending a cell that is in no chain keeps the chains disjoint. */
  lemma DisjointAppend(chains: seq<seq<nat>>, h: nat, n: nat)
    requires Disjoint(chains) && h < |chains|
    requires forall b, j :: 0 <= b < |chains| && 0 <= j < |chains[b]| ==> chains[b][j] != n
    ensures Disjoint(chains[h := chains[h] + [n]])
  {
  }

  /** Dropping one cell keeps the chains disjoint. */
  lemma DisjointRemove(chains: seq<seq<nat>>, h: nat, j: nat)
    requires Disjoint(chains) && h < |chains| && j < |chains[h]|
    ensures Disjoint(chains[h := chains[h][..j] + chains[h][j + 1..]])
  {
    var c := chains[h][..j] + chains[h][j + 1..];
    var chains' := chains[h := c];
    forall b1, j1, b2, j2 |
      0 <= b1 < |chains'| && 0 <= j1 < |chains'[b1]| && 0 <= b2 < |chains'| && 0 <= j2 < |chains'[b2]| &&
      chains'[b1][j1] == chains'[b2][j2]
      ensures b1 == b2 && j1 == j2
    {
      var k1 := if b1 == h && j1 >= j then j1 + 1 else j1;
      var k2 := if b2 == h && j2 >= j then j2 + 1 else j2;
      assert chains'[b1][j1] == chains[b1][k1];
      assert chains'[b2][j2] == chains[b2][k2];
    }
  }

  /** A cell of a chain appears nowhere else in that chain. */
  lemma DisjointWithin(chains: seq<seq<nat>>, h: nat, k: nat)
    requires Disjoint(chains) && h < |chains| && k < |chains[h]|
    ensures forall i :: 0 <= i < |chains[h]| && i != k ==> chains[h][i] != chains[h][k]
  {
  }

  /** Overwriting a cell of chain `h` leaves every other chain linked. */
  lemma RelinkKeepsOthers(nodes: seq<Node>, heads: seq<Link>, chains: seq<seq<nat>>, contents: seq<seq<Entry>>,
                          h: nat, k: nat, x: Node)
    requires |heads| == |chains| == |contents| && Disjoint(chains) && h < |chains| && k < |chains[h]|
    requires chains[h][k] < |nodes|
    requires forall b :: 0 <= b < |heads| ==> Linked(nodes, heads[b], chains[b], contents[b])
    ensures forall b :: 0 <= b < |heads| && b != h ==> Linked(nodes[chains[h][k] := x], heads[b], chains[b], contents[b])
  {
    var p := chains[h][k];
    forall b | 0 <= b < |heads| && b != h
      ensures Linked(nodes[p := x], heads[b], chains[b], contents[b])
    {
      assert Linked(nodes, heads[b], chains[b], contents[b]);
      forall i | 0 <= i < |chains[b]| ensures chains[b][i] != p {
      }
      LinkedFrame(nodes, heads[b], chains[b], contents[b], p, x);
    }
  }

  /**
    The arena-backed buckets: bucket `b` starts at `heads[b]` and links the
    cells `chains[b]`, holding the entries `contents[b]`; no cell is shared.
   */
  ghost predicate Consistent(nodes: seq<Node>, heads: seq<Link>, chains: seq<seq<nat>>, contents: Table.Buckets) {
    |heads| == |chains| == |contents| &&
    (forall b :: 0 <= b < |heads| ==> Linked(nodes, heads[b], chains[b], contents[b])) &&
    Disjoint(chains)
  }

  /** Allocating a node keeps the table consistent, and the new cell is in no chain. */
  lemma ConsistentGrow(nodes: seq<Node>, heads: seq<Link>, chains: seq<seq<nat>>, contents: Table.Buckets, x: Node)
    requires Consistent(nodes, heads, chains, contents)
    ensures Consistent(nodes + [x], heads, chains, contents)
    ensures forall b, j :: 0 <= b < |chains| && 0 <= j < |chains[b]| ==> chains[b][j] != |nodes|
  {
    forall b | 0 <= b < |heads| ensures Linked(nodes + [x], heads[b], chains[b], contents[b]) {
      LinkedGrow(nodes, heads[b], chains[b], contents[b], x);
    }
    forall b, j | 0 <= b < |chains| && 0 <= j < |chains[b]| ensures chains[b][j] != |nodes| {
      assert Linked(nodes, heads[b], chains[b], contents[b]);
    }
  }

  /** Insert into an empty bucket `h`: the bucket head points at the new node `n`. */
  lemma LinkFirst(nodes: seq<Node>, heads: seq<Link>, chains: seq<seq<nat>>, contents: Table.Buckets,
                  h: nat, n: nat, heads': seq<Link>, chains': seq<seq<nat>>, contents': Table.Buckets)
    requires Consistent(nodes, heads, chains, contents) && h < |heads| && heads[h] == Nil
    requires n < |nodes| && nodes[n].next == Nil
    requires forall b, j :: 0 <= b < |chains| && 0 <= j < |chains[b]| ==> chains[b][j] != n
    requires heads' == heads[h := At(n)] && chains' == chains[h := chains[h] + [n]]
    requires contents' == contents[h := contents[h] + [(nodes[n].key, nodes[n].value)]]
    ensures Consistent(nodes, heads', chains', contents')
  {
    assert Linked(nodes, heads[h], chains[h], contents[h]);
    DisjointAppend(chains, h, n);
  }

  /** Insert into a non-empty bucket `h`: its tail node `p` links to the new node `n`. */
  lemma LinkTail(nodes: seq<Node>, heads: seq<Link>, chains: seq<seq<nat>>, contents: Table.Buckets,
                 h: nat, n: nat, p: nat, nodes': seq<Node>, chains': seq<seq<nat>>, contents': Table.Buckets)
    requires Consistent(nodes, heads, chains, contents) && h < |heads|
    requires chains[h] != [] && p == chains[h][|chains[h]| - 1]
    requires n < |nodes| && nodes[n].next == Nil
    requires forall b, j :: 0 <= b < |chains| && 0 <= j < |chains[b]| ==> chains[b][j] != n
    requires p < |nodes| && nodes' == nodes[p := nodes[p].(next := At(n))]
    requires chains' == chains[h := chains[h] + [n]]
    requires contents' == contents[h := contents[h] + [(nodes[n].key, nodes[n].value)]]
    ensures Consistent(nodes', heads, chains', contents')
  {
    var k := |chains[h]| - 1;
    assert Linked(nodes, heads[h], chains[h], contents[h]);
    DisjointWithin(chains, h, k);
    RelinkKeepsOthers(nodes, heads, chains, contents, h, k, nodes[p].(next := At(n)));
    LinkedAppend(nodes, heads[h], chains[h], contents[h], n);
    DisjointAppend(chains, h, n);
  }

  /** Delete of the first node of bucket `h`: the bucket head moves to its successor. */
  lemma UnlinkHead(nodes: seq<Node>, heads: seq<Link>, chains: seq<seq<nat>>, contents: Table.Buckets,
                   h: nat, heads': seq<Link>, chains': seq<seq<nat>>, contents': Table.Buckets)
    requires Consistent(nodes, heads, chains, contents) && h < |heads|
    requires chains[h] != [] && chains[h][0] < |nodes|
    requires heads' == heads[h := nodes[chains[h][0]].next]
    requires chains' == chains[h := chains[h][1..]] && contents' == contents[h := contents[h][1..]]
    ensures Consistent(nodes, heads', chains', contents')
  {
    assert Linked(nodes, heads[h], chains[h], contents[h]);
    LinkedRemoveHead(nodes, heads[h], chains[h], contents[h]);
    DisjointRemove(chains, h, 0);
    assert chains[h][..0] + chains[h][1..] == chains[h][1..];
  }

  /** Delete of the node at position `j > 0` of bucket `h`: the link of the node `p` before it skips it. */
  lemma UnlinkAfter(nodes: seq<Node>, heads: seq<Link>, chains: seq<seq<nat>>, contents: Table.Buckets,
                    h: nat, j: nat, p: nat, nodes': seq<Node>, chains': seq<seq<nat>>, contents': Table.Buckets)
    requires Consistent(nodes, heads, chains, contents) && h < |heads|
    requires 0 < j < |chains[h]| && p == chains[h][j - 1] && chains[h][j] < |nodes|
    requires p < |nodes| && nodes' == nodes[p := nodes[p].(next := nodes[chains[h][j]].next)]
    requires chains' == chains[h := chains[h][..j] + chains[h][j + 1..]]
    requires contents' == contents[h := contents[h][..j] + contents[h][j + 1..]]
    ensures Consistent(nodes', heads, chains', contents')
  {
    assert Linked(nodes, heads[h], chains[h], contents[h]);
    DisjointWithin(chains, h, j - 1);
    RelinkKeepsOthers(nodes, heads, chains, contents, h, j - 1, nodes[p].(next := nodes[chains[h][j]].next));
    LinkedRemoveAfter(nodes, heads[h], chains[h], contents[h], j);
    DisjointRemove(chains, h, j);
  }

  /** hashmap.go's `HashMap`: a fixed slice of `size` bucket heads. */
  class HashMap {
    const size: int
    const buckets: array<Link>
    var nodes: seq<Node>

    ghost var Cells: seq<seq<nat>>
    ghost var Contents: Table.Buckets

    ghost predicate Valid()
      reads this, buckets
    {
      0 <= size && buckets.Length == size == |Contents| &&
      Consistent(nodes, buckets[..], Cells, Contents) &&
      Table.WellPlaced(Contents)
    }

    /** `NewHashMap(size)`: `size` empty buckets. */
    constructor (size: int)
      requires 0 <= size <= MaxInt
      ensures Valid() && fresh(buckets)
      ensures this.size == size && Contents == Table.Empty(size)
    {
      this.size := size;
      buckets := new Link[size](_ => Nil);
      nodes := [];
      Cells := seq(size, _ => []);
      Contents := Table.Empty(size);
    }

    /** Insert: walk to the tail of the key's chain and link a new node after it. */
    method Insert(key: int, value: string)
      requires Valid() && Table.Addressable(size, key)
      modifies this, buckets
      ensures Valid()
      ensures Contents == Table.Put(old(Contents), key, value)
    {
      var index := HashFunction(key, size);
      ghost var cells := Cells[index];
      var n := |nodes|;
      ConsistentGrow(nodes, buckets[..], Cells, Contents, Node(key, value, Nil));
      nodes := nodes + [Node(key, value, Nil)];
      ghost var heads, chains, contents := buckets[..], Cells, Contents;
      if buckets[index] == Nil {
        buckets[index] := At(n);
        Cells := Cells[index := cells + [n]];
        Contents := Table.Put(Contents, key, value);
        LinkFirst(nodes, heads, chains, contents, index, n, buckets[..], Cells, Contents);
      } else {
        assert Linked(nodes, buckets[index], cells, Contents[index]);
        var current := buckets[index].index;
        ghost var j := 0;
        while nodes[current].next != Nil
          invariant 0 <= j < |cells| && current == cells[j]
          decreases |cells| - j
        {
          current := nodes[current].next.index;
          j := j + 1;
        }
        ghost var arena := nodes;
        nodes := nodes[current := nodes[current].(next := At(n))];
        Cells := Cells[index := cells + [n]];
        Contents := Table.Put(Contents, key, value);
        LinkTail(arena, heads, chains, contents, index, n, current, nodes, Cells, Contents);
      }
    }

    /** Get: the value of the first node in the key's chain with that key, or "". */
    method Get(key: int) returns (v: string)
      requires Valid() && Table.Addressable(size, key)
      ensures v == Table.Find(Contents, key).GetOr("")
    {
      var index := HashFunction(key, size);
      ghost var cells, entries := Cells[index], Contents[index];
      assert Linked(nodes, buckets[index], cells, entries);
      var current := buckets[index];
      ghost var j := 0;
      while current != Nil
        invariant 0 <= j <= |cells|
        invariant current == if j < |cells| then At(cells[j]) else Nil
        invariant Absent(entries[..j], key)
        decreases |cells| - j
      {
        var node := nodes[current.index];
        if node.key == key {
          LookupAt(entries, key, j);
          return node.value;
        }
        current := node.next;
        j := j + 1;
      }
      assert entries[..j] == entries;
      return "";
    }

    /** Delete: unlink the first node in the key's chain with that key, if there is one. */
    method Delete(key: int)
      requires Valid() && Table.Addressable(size, key)
      modifies this, buckets
      ensures Valid()
      ensures Contents == Table.Remove(old(Contents), key)
    {
      var index := HashFunction(key, size);
      ghost var cells, entries := Cells[index], Contents[index];
      assert Linked(nodes, buckets[index], cells, entries);
      var current := buckets[index];
      var prev: Link := Nil;
      ghost var j := 0;
      while current != Nil
        invariant 0 <= j <= |cells|
        invariant current == if j < |cells| then At(cells[j]) else Nil
        invariant prev == if j == 0 then Nil else At(cells[j - 1])
        invariant Absent(entries[..j], key)
        decreases |cells| - j
      {
        if nodes[current.index].key == key {
          break;
        }
        prev := current;
        current := nodes[current.index].next;
        j := j + 1;
      }
      if current != Nil {
        var node := nodes[current.index];
        ghost var arena, heads, chains, contents := nodes, buckets[..], Cells, Contents;
        RemoveFirstAt(entries, key, j);
        Cells := Cells[index := cells[..j] + cells[j + 1..]];
        Contents := Table.Remove(Contents, key);
        if prev == Nil {
          buckets[index] := node.next;
          assert cells[..j] + cells[j + 1..] == cells[1..];
          assert entries[..j] + entries[j + 1..] == entries[1..];
          UnlinkHead(nodes, heads, chains, contents, index, buckets[..], Cells, Contents);
        } else {
          nodes := nodes[prev.index := nodes[prev.index].(next := node.next)];
          UnlinkAfter(arena, heads, chains, contents, index, j, prev.index, nodes, Cells, Contents);
        }
      } else {
        assert entries[..j] == entries;
        Table.RemoveAbsent(Contents, key);
      }
    }
  }

  /**
    A caller of the table: ten buckets loaded by inserting one customer ID
    and name after another, the load pattern of the driver program. The
    keys, the lookups and the delete are an added scenario.
   */
  method CustomerExample() returns (alice: string, missing: string, deleted: string, bob: string)
    ensures alice == "Alice" && missing == "" && deleted == "" && bob == "Bob"
  {
    HashIsBucketIndex(12345, 10);
    HashIsBucketIndex(67890, 10);
    HashIsBucketIndex(99999, 10);
    var hm := new HashMap(10);
    var t0 := hm.Contents;
    hm.Insert(12345, "Alice");
    var t1 := hm.Contents;
    hm.Insert(67890, "Bob");
    var t2 := hm.Contents;
    Table.FindEmpty(10, 12345);
    Table.PutKeepsFirst(t0, 12345, "Alice");
    Table.PutOther(t1, 67890, "Bob", 12345);
    alice := hm.Get(12345);
    Table.FindEmpty(10, 99999);
    Table.PutOther(t0, 12345, "Alice", 99999);
    Table.PutOther(t1, 67890, "Bob", 99999);
    missing := hm.Get(99999);
    hm.Delete(12345);
    Table.RemoveUndoesPut(t0, 12345, "Alice");
    Table.PutOther(t1, 67890, "Bob", 12345);
    Table.RemoveOther(t2, 12345, 67890);
    deleted := hm.Get(12345);
    Table.FindEmpty(10, 67890);
    Table.PutOther(t0, 12345, "Alice", 67890);
    Table.PutKeepsFirst(t1, 67890, "Bob");
    bob := hm.Get(67890);
  }

  /**
    A single bucket holding two entries of one key: Get sees the older,
    and one Delete uncovers the newer.
   */
  method DuplicateExample() returns (first: string, second: string)
    ensures first == "a" && second == "b"
  {
    HashIsBucketIndex(7, 1);
    var hm := new HashMap(1);
    var t0 := hm.Contents;
    hm.Insert(7, "a");
    hm.Insert(7, "b");
    Table.FindEmpty(1, 7);
    Table.DuplicateKeys(t0, 7, "a", "b");
    first := hm.Get(7);
    hm.Delete(7);
    second := hm.Get(7);
  }
}
