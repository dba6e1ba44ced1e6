/** The model of a replica's buffer cache: a set of nodes, evicted oldest first. */
module Caching {
  import opened Eviction
  import opened Names

  const MAX_INTEGER := 0x3f3f3f3f

  /** The order of the node set: tables by name, then indexes by hash. */
  predicate KeyLess(a: Key, b: Key) {
    if a.IndexKey? == b.IndexKey? then
      if a.IndexKey? then a.hash < b.hash else a.name != b.name && Leq(a.name, b.name)
    else b.IndexKey?
  }

  /** Exactly equal keys are equivalent in this order. */
  lemma KeyLessTotal(a: Key, b: Key)
    ensures a == b <==> !KeyLess(a, b) && !KeyLess(b, a)
    ensures !(KeyLess(a, b) && KeyLess(b, a))
  {
    if a.TableKey? && b.TableKey? {
      LeqTotal(a.name, b.name);
      if Leq(a.name, b.name) && Leq(b.name, a.name) { LeqAntisymmetric(a.name, b.name); }
    }
  }

  /** Tables come before indexes, tables in the order of their names and indexes in that of their hashes. */
  lemma KeyLessOrder(a: string, b: string, x: int, y: int)
    ensures KeyLess(TableKey(a), IndexKey(x)) && !KeyLess(IndexKey(x), TableKey(a))
    ensures KeyLess(IndexKey(x), IndexKey(y)) <==> x < y
    ensures KeyLess(TableKey(a), TableKey(b)) <==> a != b && exists k: nat :: SmallerAt(a, b, k)
  {
    LeqFirstDifference(a, b);
  }

  lemma KeyLessTransitive(a: Key, b: Key, c: Key)
    requires KeyLess(a, b) && KeyLess(b, c)
    ensures KeyLess(a, c)
  {
    if a.TableKey? && c.TableKey? {
      LeqTransitive(a.name, b.name, c.name);
      if a.name == c.name { LeqAntisymmetric(a.name, b.name); }
    }
  }

  class CacheNode {
    const key: Key
    var size: int
    var timeIdx: int

    constructor (key: Key, size: int)
      ensures this.key == key && this.size == size
    {
      this.key, this.size, timeIdx := key, size, 0;
    }

    method SetTime(t: int)
      modifies this`timeIdx
      ensures timeIdx == t
    {
      timeIdx := t;
    }

    method Reduce(diff: int)
      modifies this`size
      ensures size == old(size) - diff
    {
      size := size - diff;
    }

    function AsEntry(): Entry
      reads this
    {
      Entry(key, size, timeIdx)
    }
  }

  /** The entries that the nodes stand for. */
  ghost predicate Stands(ns: seq<CacheNode>, es: seq<Entry>)
    reads ns
  {
    |ns| == |es| && forall i :: 0 <= i < |ns| ==> ns[i].AsEntry() == es[i]
  }

  ghost function SumSizes(s: set<CacheNode>): int
    reads s
  {
    if s == {} then 0
    else
      var n :| n in s;
      n.size + SumSizes(s - {n})
  }

  lemma {:induction false} SumPick(s: set<CacheNode>, x: CacheNode)
    requires x in s
    ensures SumSizes(s) == x.size + SumSizes(s - {x})
  {
    var n :| n in s && SumSizes(s) == n.size + SumSizes(s - {n});
    if n != x {
      SumPick(s - {n}, x);
      SumPick(s - {x}, n);
      assert s - {n} - {x} == s - {x} - {n};
    }
  }

  /** Older entries have smaller times, no key occurs twice, and no size is negative. */
  ghost predicate Ordered(es: seq<Entry>, time: int) {
    && (forall i :: 0 <= i < |es| ==> es[i].size >= 0 && es[i].time <= time)
    && forall i, j :: 0 <= i < j < |es| ==> es[i].time < es[j].time && es[i].key != es[j].key
  }

  lemma {:induction false} SumIsTotal(ns: seq<CacheNode>, es: seq<Entry>, time: int)
    requires Stands(ns, es) && Ordered(es, time)
    ensures SumSizes(set n | n in ns) == Total(es)
  {
    if ns != [] {
      SumPick((set n | n in ns), ns[0]);
      assert ns[0] !in ns[1..];
      assert (set n | n in ns) - {ns[0]} == (set n | n in ns[1..]);
      SumIsTotal(ns[1..], es[1..], time);
    } else {
      assert (set n | n in ns) == {};
    }
  }

  class Cache {
    const cacheSize: int
    const blockSize: int
    var nodes: set<CacheNode>
    var totalSize: int
    var timeIdx: int
    /** The same nodes in order of insertion. */
    ghost var byAge: seq<CacheNode>
    /** What they stand for. */
    ghost var contents: seq<Entry>

    constructor (cacheSize: int, blockSize: int)
      requires cacheSize > 0 && blockSize > 0
      ensures Valid() && contents == [] && timeIdx == 0
      ensures this.cacheSize == cacheSize && this.blockSize == blockSize
    {
      this.cacheSize, this.blockSize, nodes, totalSize, timeIdx := cacheSize, blockSize, {}, 0, 0;
      byAge, contents := [], [];
    }

    ghost predicate Valid()
      reads this, nodes
    {
      && cacheSize > 0 && blockSize > 0 && 0 <= timeIdx < MAX_INTEGER
      && nodes == (set n | n in byAge)
      && Stands(byAge, contents) && Ordered(contents, timeIdx)
    }

    ghost function Chunk(): int { 400 * blockSize }

    /** What becomes of a cache that is asked to hold an entry: one that has the key already only evicts;
        otherwise the entry is added as it is, nothing else changes if there is room, and it is the last to
        be evicted. */
    ghost predicate IsCached(before: seq<Entry>, after: seq<Entry>, e: Entry)
      requires cacheSize > 0 && blockSize > 0 && Sizes(before) && e.size >= 0
    {
      if exists i :: 0 <= i < |before| && before[i].key == e.key then after == Evict(before, cacheSize, 400 * blockSize)
      else
        && after == Evict(before + [e], cacheSize, 400 * blockSize)
        && (Total(before) + e.size < cacheSize ==> after == before + [e])
        && (e.size < cacheSize ==> after != [] && after[|after| - 1] == e)
    }

    lemma CachedIsLoaded(before: seq<Entry>, after: seq<Entry>, e: Entry)
      requires cacheSize > 0 && blockSize > 0 && Sizes(before) && e.size >= 0 && IsCached(before, after, e)
      requires Ordered(after, e.time)
      ensures e.size < cacheSize && !HasKey(before, e.key) ==> Loaded(after, e.key) == e.size
    {
      if e.size < cacheSize && !HasKey(before, e.key) { LoadedAt(after, |after| - 1); }
    }

    /** Adds up the sizes and finds the node with the least time, whatever the order of the walk. */
    method FindOldest() returns (total: int, oldest: CacheNode?)
      requires Valid()
      ensures total == Total(contents)
      ensures oldest == if contents == [] then null else byAge[0]
    {
      total, oldest := 0, null;
      var s := MAX_INTEGER;
      var rest := nodes;
      while rest != {}
        invariant rest <= nodes
        invariant total + SumSizes(rest) == SumSizes(nodes)
        invariant oldest == null ==> s == MAX_INTEGER && rest == nodes
        invariant oldest != null ==> oldest in nodes - rest && s == oldest.timeIdx
        invariant forall n :: n in nodes - rest ==> s <= n.timeIdx
      {
        var node :| node in rest;
        SumPick(rest, node);
        rest := rest - {node};
        total := total + node.size;
        if s > node.timeIdx {
          s := node.timeIdx;
          oldest := node;
        }
      }
      SumIsTotal(byAge, contents, timeIdx);
      if contents != [] {
        assert byAge[0] in nodes;
        assert s <= byAge[0].timeIdx;
      }
    }

    method DeleteNode(node: CacheNode)
      requires Valid() && contents != [] && node == byAge[0]
      modifies this`totalSize, this`nodes, this`byAge, this`contents
      ensures Valid() && contents == old(contents)[1..]
      ensures nodes <= old(nodes) && totalSize - Total(contents) == old(totalSize - Total(contents))
    {
      totalSize := totalSize - node.size;
      nodes := nodes - {node};
      byAge, contents := byAge[1..], contents[1..];
    }

    method ReduceRatio(node: CacheNode)
      requires Valid() && contents != [] && node == byAge[0] && node.key.TableKey?
      modifies this`totalSize, this`nodes, this`byAge, this`contents, node`size
      ensures Valid() && nodes <= old(nodes)
      ensures contents == EvictOnce(old(contents), Chunk())
      ensures var oldest := old(contents)[0];
              contents ==
                (if oldest.size <= 400 * blockSize then [] else [oldest.(size := oldest.size - 400 * blockSize)]) + old(contents)[1..]
      ensures totalSize - Total(contents) == old(totalSize - Total(contents))
    {
      var fetchSize := 400 * blockSize;
      if node.size <= fetchSize {
        DeleteNode(node);
        return;
      }
      totalSize := totalSize - fetchSize;
      node.Reduce(fetchSize);
      contents := Shrunk(contents, Chunk());
    }

    /** One round of the eviction loop. */
    method EvictOldest()
      requires Valid() && contents != []
      modifies this`totalSize, this`nodes, this`byAge, this`contents, nodes
      ensures Valid() && nodes <= old(nodes) && contents == EvictOnce(old(contents), Chunk())
      ensures totalSize == Total(contents)
    {
      var oldest: CacheNode?;
      totalSize, oldest := FindOldest();
      assert byAge[0] in nodes;
      if oldest.key.IndexKey? {
        DeleteNode(oldest);
      } else {
        ReduceRatio(oldest);
      }
    }

    /** Evicts until the total is below the cache size. */
    method RemoveOld()
      requires Valid()
      modifies this`totalSize, this`nodes, this`byAge, this`contents, nodes
      ensures Valid() && Sizes(old(contents)) && nodes <= old(nodes)
      ensures contents == Evict(old(contents), cacheSize, Chunk())
      ensures totalSize == Total(contents) < cacheSize
    {
      ghost var es := contents;
      var maxSize := cacheSize;
      var oldest: CacheNode?;
      totalSize, oldest := FindOldest();
      while totalSize >= maxSize
        invariant Valid() && nodes <= old(nodes)
        invariant totalSize == Total(contents)
        invariant Evict(contents, cacheSize, Chunk()) == Evict(es, cacheSize, Chunk())
        decreases |contents|, if contents == [] then 0 else contents[0].size
      {
        EvictOldest();
      }
    }

    /** The node the set holds under a key, if any. */
    method Find(key: Key) returns (found: CacheNode?)
      requires Valid()
      ensures found == null ==> !HasKey(contents, key)
      ensures found != null ==> found in nodes && found.key == key && HasKey(contents, key)
    {
      var rest := nodes;
      while rest != {}
        invariant rest <= nodes && forall n :: n in nodes - rest ==> n.key != key
      {
        var node :| node in rest;
        KeyLessTotal(node.key, key);
        if !KeyLess(node.key, key) && !KeyLess(key, node.key) {
          ghost var i :| 0 <= i < |byAge| && byAge[i] == node;
          assert contents[i].key == key;
          return node;
        }
        rest := rest - {node};
      }
      assert forall i :: 0 <= i < |byAge| ==> byAge[i] in nodes;
      return null;
    }

    method GetSize(name: string) returns (size: int)
      requires Valid()
      ensures size == Loaded(contents, TableKey(name))
      ensures forall i :: 0 <= i < |contents| && contents[i].key == TableKey(name) ==> size == contents[i].size
      ensures (forall i :: 0 <= i < |contents| ==> contents[i].key != TableKey(name)) ==> size == 0
    {
      var node := Find(TableKey(name));
      if node == null {
        LoadedAbsent(contents, TableKey(name));
        return 0;
      }
      ghost var i :| 0 <= i < |byAge| && byAge[i] == node;
      assert forall j :: 0 <= j < i ==> contents[j].key != contents[i].key;
      LoadedAt(contents, i);
      return node.size;
    }

    /** The set's own insertion: no effect when an equal node is present. */
    method InsertIntoSet(node: CacheNode)
      requires Valid() && node !in nodes && node.size >= 0
      requires node.timeIdx == timeIdx && Ordered(contents, timeIdx - 1)
      modifies this`nodes, this`byAge, this`contents
      ensures Valid() && nodes <= old(nodes) + {node}
      ensures contents == if exists i :: 0 <= i < |old(contents)| && old(contents)[i].key == node.key then old(contents)
                          else old(contents) + [Entry(node.key, node.size, node.timeIdx)]
    {
      var equal := Find(node.key);
      if equal == null {
        nodes := nodes + {node};
        byAge, contents := byAge + [node], contents + [node.AsEntry()];
      }
    }

    method InsertNode(node: CacheNode)
      requires Valid() && node !in nodes && node.size >= 0
      requires node.timeIdx == timeIdx && Ordered(contents, timeIdx - 1)
      modifies this`totalSize, this`nodes, this`byAge, this`contents, nodes, node
      ensures Valid() && nodes <= old(nodes) + {node}
      ensures Sizes(old(contents)) && contents == Load(old(contents), old(node.AsEntry()), cacheSize, Chunk())
      ensures totalSize == Total(contents) < cacheSize
    {
      totalSize := totalSize + node.size;
      InsertIntoSet(node);
      RemoveOld();
    }

    /** Works on a node that is not in the set: it counts up the time and evicts, and refreshes nothing. */
    method IncrementTable(node: CacheNode, tableSize: int)
      requires Valid() && node !in nodes && timeIdx + 1 < MAX_INTEGER
      modifies this`totalSize, this`nodes, this`byAge, this`contents, this`timeIdx, nodes, node
      ensures Valid() && nodes <= old(nodes) && timeIdx == old(timeIdx) + 1
      ensures Sizes(old(contents)) && contents == Evict(old(contents), cacheSize, Chunk())
      ensures totalSize == Total(contents) < cacheSize
    {
      var fetchSize := 10 * blockSize;
      var t := node.size;
      node.size := node.size + fetchSize;
      node.size := if node.size < tableSize then tableSize else node.size;
      totalSize := totalSize + node.size - t;
      timeIdx := timeIdx + 1;
      node.SetTime(timeIdx);
      RemoveOld();
    }

    method AddIndex(hash: int, size: nat)
      requires Valid() && timeIdx + 1 < MAX_INTEGER
      modifies this, nodes
      ensures Valid() && timeIdx == old(timeIdx) + 1 && fresh(nodes - old(nodes))
      ensures Sizes(old(contents))
      ensures contents == Load(old(contents), Entry(IndexKey(hash), size, timeIdx), cacheSize, Chunk())
      ensures IsCached(old(contents), contents, Entry(IndexKey(hash), size, timeIdx))
      ensures totalSize == Total(contents) < cacheSize
    {
      ghost var es := contents;
      var node := new CacheNode(IndexKey(hash), size);
      timeIdx := timeIdx + 1;
      node.SetTime(timeIdx);
      InsertNode(node);
      LoadCaches(es, Entry(IndexKey(hash), size, timeIdx), cacheSize, Chunk());
    }

    /** A table with something cached is not cached again; its new node only counts up the time. */
    method CacheTable(name: string, size: nat, tableSize: nat)
      requires Valid() && timeIdx + 1 < MAX_INTEGER
      modifies this, nodes
      ensures Valid() && timeIdx == old(timeIdx) + 1 && fresh(nodes - old(nodes))
      ensures Sizes(old(contents))
      ensures contents == Load(old(contents), Entry(TableKey(name), size, timeIdx), cacheSize, Chunk())
    {
      var node := new CacheNode(TableKey(name), size);
      var cached := GetSize(name);
      if cached != 0 {
        IncrementTable(node, tableSize);
      } else {
        timeIdx := timeIdx + 1;
        node.SetTime(timeIdx);
        InsertNode(node);
      }
    }

    /** Loads a whole table, or the small part of it that fetched rows are taken to touch. */
    method AddTable(name: string, tableSize: nat, full: bool)
      requires Valid() && timeIdx + 1 < MAX_INTEGER
      modifies this, nodes
      ensures Valid() && timeIdx == old(timeIdx) + 1 && fresh(nodes - old(nodes))
      ensures Sizes(old(contents))
      ensures contents == Load(old(contents),
        Entry(TableKey(name), if full then tableSize else tableSize / 100000, timeIdx), cacheSize, Chunk())
      ensures IsCached(old(contents), contents, Entry(TableKey(name), if full then tableSize else tableSize / 100000, timeIdx))
      ensures var size := if full then tableSize else tableSize / 100000;
              size < cacheSize && !HasKey(old(contents), TableKey(name)) ==> Loaded(contents, TableKey(name)) == size
      ensures totalSize == Total(contents) < cacheSize
    {
      ghost var es := contents;
      var size := if full then tableSize else tableSize / 100000;
      CacheTable(name, size, tableSize);
      ghost var e := Entry(TableKey(name), size, timeIdx);
      LoadStable(es, e, cacheSize, Chunk());
      RemoveOld();
      LoadCaches(es, e, cacheSize, Chunk());
      CachedIsLoaded(es, contents, e);
    }
  }
}
