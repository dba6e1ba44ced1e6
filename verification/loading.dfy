/** What a replica has loaded over any run, and the cost multiplier that depends on it. */
module Loading {
  import opened Eviction
  import opened Caching

  /** The sizes of the tables. */
  type Catalog = map<string, nat>

  datatype IndexSize = IndexSize(hash: int, size: nat)

  /** What a plan reads: whole tables, indexes, and tables from which single rows are fetched. */
  datatype Resources = Resources(full: seq<string>, indexes: seq<IndexSize>, retrieved: seq<string>) {
    predicate Known(catalog: Catalog) {
      (forall t :: t in full ==> t in catalog) && forall t :: t in retrieved ==> t in catalog
    }
  }

  datatype Request = LoadIndex(index: IndexSize) | LoadTable(name: string, full: bool) {
    predicate Known(catalog: Catalog) {
      LoadTable? ==> name in catalog
    }
  }

  function EntryFor(r: Request, catalog: Catalog, time: int): (e: Entry)
    requires r.Known(catalog)
    ensures e.size >= 0 && e.time == time
  {
    match r
    case LoadIndex(i) => Entry(IndexKey(i.hash), i.size, time)
    case LoadTable(name, full) => Entry(TableKey(name), if full then catalog[name] else catalog[name] / 100000, time)
  }

  /** Every cached table is at most as large as the table itself. */
  ghost predicate Within(es: seq<Entry>, catalog: Catalog) {
    forall i :: 0 <= i < |es| ==>
      es[i].size >= 0 && (es[i].key.TableKey? ==> es[i].key.name in catalog && es[i].size <= catalog[es[i].key.name])
  }

  /** The cache before and after each of a run of loads, starting empty: each load is stamped with its
      place in the run and followed by the evictions it causes. */
  ghost predicate IsRun(states: seq<seq<Entry>>, rs: seq<Request>, catalog: Catalog, budget: int, chunk: int) {
    && |states| == |rs| + 1 && states[0] == []
    && forall i :: 0 <= i < |rs| ==> IsStep(states[i], rs[i], i + 1, states[i + 1], catalog, budget, chunk)
  }

  ghost predicate IsStep(before: seq<Entry>, r: Request, time: int, after: seq<Entry>, catalog: Catalog,
                         budget: int, chunk: int)
  {
    && budget > 0 && chunk > 0 && Sizes(before) && r.Known(catalog)
    && after == Load(before, EntryFor(r, catalog, time), budget, chunk)
  }

  lemma RunExtended(states: seq<seq<Entry>>, rs: seq<Request>, r: Request, after: seq<Entry>, catalog: Catalog,
                    budget: int, chunk: int)
    requires IsRun(states, rs, catalog, budget, chunk) && IsStep(states[|rs|], r, |rs| + 1, after, catalog, budget, chunk)
    ensures IsRun(states + [after], rs + [r], catalog, budget, chunk)
  {
    var (ss, qs) := (states + [after], rs + [r]);
    forall i | 0 <= i < |qs| ensures IsStep(ss[i], qs[i], i + 1, ss[i + 1], catalog, budget, chunk) {
      if i < |rs| { assert IsStep(states[i], rs[i], i + 1, states[i + 1], catalog, budget, chunk); }
    }
  }

  lemma EvictWithin(es: seq<Entry>, catalog: Catalog, budget: int, chunk: int)
    requires budget > 0 && chunk > 0 && Within(es, catalog)
    ensures Within(Evict(es, budget, chunk), catalog)
  {
    var k, j := EvictCuts(es, budget, chunk);
    var left := Evict(es, budget, chunk);
    forall i | 0 <= i < |left|
      ensures left[i].size >= 0
      ensures left[i].key.TableKey? ==> left[i].key.name in catalog && left[i].size <= catalog[left[i].key.name]
    {
      if i == 0 {
        AtLeastOneChunk(j, chunk);
        assert left[0].size <= es[k].size;
      } else {
        assert left[i] == left[1..][i - 1] == es[k + i];
      }
    }
  }

  /** Over every run of loads and evictions a cached table stays between nothing and the whole table. */
  lemma {:induction false} RunWithin(states: seq<seq<Entry>>, rs: seq<Request>, catalog: Catalog, budget: int,
                                     chunk: int, k: nat)
    requires IsRun(states, rs, catalog, budget, chunk) && k <= |rs|
    ensures Within(states[k], catalog)
  {
    if k > 0 {
      RunWithin(states, rs, catalog, budget, chunk, k - 1);
      assert IsStep(states[k - 1], rs[k - 1], k, states[k - 1 + 1], catalog, budget, chunk);
      StepWithin(states[k - 1], rs[k - 1], k, states[k], catalog, budget, chunk);
    }
  }

  lemma StepWithin(before: seq<Entry>, r: Request, time: int, after: seq<Entry>, catalog: Catalog, budget: int,
                   chunk: int)
    requires IsStep(before, r, time, after, catalog, budget, chunk) && Within(before, catalog)
    ensures Within(after, catalog)
  {
    var e := EntryFor(r, catalog, time);
    EvictWithin(before, catalog, budget, chunk);
    assert Within(before + [e], catalog);
    EvictWithin(before + [e], catalog, budget, chunk);
  }

  ghost predicate AllKnown(rs: seq<Request>, catalog: Catalog) {
    forall i :: 0 <= i < |rs| ==> rs[i].Known(catalog)
  }

  /** The size of everything that the first `n` requests asked for. */
  ghost function Requested(rs: seq<Request>, catalog: Catalog, n: nat): int
    requires AllKnown(rs, catalog) && n <= |rs|
  {
    if n == 0 then 0 else Requested(rs, catalog, n - 1) + EntryFor(rs[n - 1], catalog, n).size
  }

  function KeyOf(r: Request): Key {
    match r case LoadIndex(i) => IndexKey(i.hash) case LoadTable(name, _) => TableKey(name)
  }

  /** The first request for its table or index. */
  ghost predicate IsFirstRequest(rs: seq<Request>, i: nat) {
    i < |rs| && forall j :: 0 <= j < i ==> KeyOf(rs[j]) != KeyOf(rs[i])
  }

  lemma {:induction false} FirstRequest(rs: seq<Request>, i: nat) returns (f: nat)
    requires i < |rs|
    ensures f <= i && IsFirstRequest(rs, f) && KeyOf(rs[f]) == KeyOf(rs[i])
  {
    f := i;
    if j :| 0 <= j < i && KeyOf(rs[j]) == KeyOf(rs[i]) { f := FirstRequest(rs, j); }
  }

  /** The cache holds exactly what the first of the first `k` requests for each table and index asked for. */
  ghost predicate HoldsFirst(es: seq<Entry>, rs: seq<Request>, catalog: Catalog, k: nat)
    requires AllKnown(rs, catalog)
  {
    && (forall i :: 0 <= i < k && IsFirstRequest(rs, i) ==> EntryFor(rs[i], catalog, i + 1) in es)
    && forall e :: e in es ==> exists i :: 0 <= i < k && IsFirstRequest(rs, i) && e == EntryFor(rs[i], catalog, i + 1)
  }

  lemma HasFirst(es: seq<Entry>, rs: seq<Request>, catalog: Catalog, k: nat)
    requires AllKnown(rs, catalog) && k < |rs| && HoldsFirst(es, rs, catalog, k)
    ensures HasKey(es, KeyOf(rs[k])) <==> !IsFirstRequest(rs, k)
  {
    if HasKey(es, KeyOf(rs[k])) {
      var at :| 0 <= at < |es| && es[at].key == KeyOf(rs[k]);
      assert es[at] in es;
    }
    if !IsFirstRequest(rs, k) {
      var j :| 0 <= j < k && KeyOf(rs[j]) == KeyOf(rs[k]);
      var f := FirstRequest(rs, j);
      var e := EntryFor(rs[f], catalog, f + 1);
      assert e in es && e.key == KeyOf(rs[k]);
    }
  }

  /** As long as everything requested together stays below the cache size, the first request for a table or
      an index decides what is cached of it, in full and for good. */
  lemma {:induction false} RunCachesFirst(states: seq<seq<Entry>>, rs: seq<Request>, catalog: Catalog, budget: int,
                                          chunk: int, k: nat)
    requires IsRun(states, rs, catalog, budget, chunk) && k <= |rs|
    requires AllKnown(rs, catalog) && Requested(rs, catalog, k) < budget
    ensures HoldsFirst(states[k], rs, catalog, k) && Total(states[k]) <= Requested(rs, catalog, k)
  {
    if k > 0 {
      RunCachesFirst(states, rs, catalog, budget, chunk, k - 1);
      assert IsStep(states[k - 1], rs[k - 1], k, states[k - 1 + 1], catalog, budget, chunk);
      var before, after := states[k - 1], states[k - 1 + 1];
      StepCachesFirst(before, rs, catalog, budget, chunk, k, after);
    }
  }

  lemma StepCachesFirst(before: seq<Entry>, rs: seq<Request>, catalog: Catalog, budget: int, chunk: int, k: nat,
                        after: seq<Entry>)
    requires AllKnown(rs, catalog) && 0 < k <= |rs|
    requires HoldsFirst(before, rs, catalog, k - 1) && IsStep(before, rs[k - 1], k, after, catalog, budget, chunk)
    requires Total(before) + EntryFor(rs[k - 1], catalog, k).size < budget
    ensures HoldsFirst(after, rs, catalog, k)
    ensures Total(after) <= Total(before) + EntryFor(rs[k - 1], catalog, k).size
  {
    var e := EntryFor(rs[k - 1], catalog, k);
    LoadCaches(before, e, budget, chunk);
    TotalAppend(before, e);
    HasFirst(before, rs, catalog, k - 1);
    HoldsOneMore(before, rs, catalog, k - 1);
    assert after == if IsFirstRequest(rs, k - 1) then before + [e] else before;
  }

  lemma HoldsOneMore(es: seq<Entry>, rs: seq<Request>, catalog: Catalog, k: nat)
    requires AllKnown(rs, catalog) && k < |rs| && HoldsFirst(es, rs, catalog, k)
    ensures var e := EntryFor(rs[k], catalog, k + 1);
            HoldsFirst(if IsFirstRequest(rs, k) then es + [e] else es, rs, catalog, k + 1)
  {
    var e := EntryFor(rs[k], catalog, k + 1);
    assert e in es + [e] && forall f :: f in es + [e] <==> f in es || f == e;
  }

  lemma {:induction false} LoadedHit(es: seq<Entry>, key: Key) returns (e: Entry)
    requires HasKey(es, key)
    ensures e in es && e.key == key && Loaded(es, key) == e.size
  {
    if es[0].key == key {
      e := es[0];
    } else {
      assert HasKey(es[1..], key) by {
        var i :| 0 <= i < |es| && es[i].key == key;
        assert es[1..][i - 1].key == key;
      }
      e := LoadedHit(es[1..], key);
    }
  }

  /** So a table of which rows were fetched first never counts as loaded whole, however often it is. */
  lemma LoadedIsFirst(states: seq<seq<Entry>>, rs: seq<Request>, catalog: Catalog, budget: int, chunk: int, k: nat,
                      i: nat)
    requires IsRun(states, rs, catalog, budget, chunk) && i < k <= |rs| && IsFirstRequest(rs, i)
    requires AllKnown(rs, catalog) && rs[i].LoadTable? && Requested(rs, catalog, k) < budget
    ensures var size := catalog[rs[i].name];
            Loaded(states[k], TableKey(rs[i].name)) == if rs[i].full then size else size / 100000
  {
    RunCachesFirst(states, rs, catalog, budget, chunk, k);
    var e := EntryFor(rs[i], catalog, i + 1);
    assert e in states[k];
    var at :| 0 <= at < |states[k]| && states[k][at] == e;
    var hit := LoadedHit(states[k], e.key);
    var j :| 0 <= j < k && IsFirstRequest(rs, j) && hit == EntryFor(rs[j], catalog, j + 1);
    assert j == i;
  }

  lemma {:induction false} LoadedWithin(es: seq<Entry>, catalog: Catalog, name: string)
    requires Within(es, catalog) && name in catalog
    ensures 0 <= Loaded(es, TableKey(name)) <= catalog[name]
  {
    if es != [] {
      assert Within(es[1..], catalog) by { assert forall i :: 0 <= i < |es[1..]| ==> es[1..][i] == es[i + 1]; }
      LoadedWithin(es[1..], catalog, name);
    }
  }

  /** A table counts in full, or only by the share that fetched rows touch. */
  function Share(size: int, full: bool): int {
    if full then size else size / 100000
  }

  function TableSizes(tables: seq<string>, full: bool, catalog: Catalog): int
    requires forall t :: t in tables ==> t in catalog
  {
    if tables == [] then 0 else Share(catalog[tables[0]], full) + TableSizes(tables[1..], full, catalog)
  }

  function TablesLoaded(tables: seq<string>, full: bool, es: seq<Entry>): int {
    if tables == [] then 0 else Share(Loaded(es, TableKey(tables[0])), full) + TablesLoaded(tables[1..], full, es)
  }

  function IndexSizes(indexes: seq<IndexSize>): nat {
    if indexes == [] then 0 else indexes[0].size + IndexSizes(indexes[1..])
  }

  /** The size of everything a plan reads. */
  function SizeOf(r: Resources, catalog: Catalog): int
    requires r.Known(catalog)
  {
    TableSizes(r.full, true, catalog) + TableSizes(r.retrieved, false, catalog) + IndexSizes(r.indexes)
  }

  /** The part of it that is loaded; indexes always count as loaded. */
  function LoadedOf(r: Resources, es: seq<Entry>): int {
    TablesLoaded(r.full, true, es) + IndexSizes(r.indexes) + TablesLoaded(r.retrieved, false, es)
  }

  lemma {:induction false} TablesOneMore(tables: seq<string>, t: string, full: bool, catalog: Catalog, es: seq<Entry>)
    requires forall u :: u in tables + [t] ==> u in catalog
    ensures TableSizes(tables + [t], full, catalog) == TableSizes(tables, full, catalog) + Share(catalog[t], full)
    ensures TablesLoaded(tables + [t], full, es) == TablesLoaded(tables, full, es) + Share(Loaded(es, TableKey(t)), full)
  {
    assert t in tables + [t];
    if tables == [] {
      assert [t][1..] == [];
    } else {
      assert (tables + [t])[1..] == tables[1..] + [t] && tables[0] in tables + [t];
      TablesOneMore(tables[1..], t, full, catalog, es);
    }
  }

  lemma {:induction false} IndexesOneMore(indexes: seq<IndexSize>, i: IndexSize)
    ensures IndexSizes(indexes + [i]) == IndexSizes(indexes) + i.size
  {
    if indexes == [] {
      assert [i][1..] == [];
    } else {
      assert (indexes + [i])[1..] == indexes[1..] + [i];
      IndexesOneMore(indexes[1..], i);
    }
  }

  /** What one more table, fetched table or index adds to the size a plan reads, and to what is loaded of it.
      Without any, both are nothing. */
  lemma ReadsOneMore(r: Resources, t: string, i: IndexSize, catalog: Catalog, es: seq<Entry>)
    requires r.Known(catalog) && t in catalog
    ensures var more := r.(full := r.full + [t]);
            && SizeOf(more, catalog) == SizeOf(r, catalog) + catalog[t]
            && LoadedOf(more, es) == LoadedOf(r, es) + Loaded(es, TableKey(t))
    ensures var more := r.(retrieved := r.retrieved + [t]);
            && SizeOf(more, catalog) == SizeOf(r, catalog) + catalog[t] / 100000
            && LoadedOf(more, es) == LoadedOf(r, es) + Loaded(es, TableKey(t)) / 100000
    ensures var more := r.(indexes := r.indexes + [i]);
            SizeOf(more, catalog) == SizeOf(r, catalog) + i.size && LoadedOf(more, es) == LoadedOf(r, es) + i.size
    ensures SizeOf(Resources([], [], []), catalog) == LoadedOf(Resources([], [], []), es) == 0
  {
    TablesOneMore(r.full, t, true, catalog, es);
    TablesOneMore(r.retrieved, t, false, catalog, es);
    IndexesOneMore(r.indexes, i);
  }

  lemma {:induction false} TablesLoadedBounds(tables: seq<string>, full: bool, catalog: Catalog, es: seq<Entry>)
    requires Within(es, catalog) && forall t :: t in tables ==> t in catalog
    ensures 0 <= TablesLoaded(tables, full, es) <= TableSizes(tables, full, catalog)
  {
    if tables != [] {
      LoadedWithin(es, catalog, tables[0]);
      TablesLoadedBounds(tables[1..], full, catalog, es);
    }
  }

  /** A quotient of two doubles, which is no number when the divisor is zero. */
  datatype Multiplier = NotANumber | Value(v: real)

  function LoadingCost(delta: int, size: int): Multiplier {
    if size == 0 then NotANumber else Value(-0.5 * (delta as real / size as real) + 1.0)
  }

  lemma Fraction(delta: int, size: int)
    requires 0 <= delta <= size && size > 0
    ensures 0.0 <= delta as real / size as real <= 1.0
    ensures delta as real / size as real == 0.0 <==> delta == 0
    ensures delta as real / size as real == 1.0 <==> delta == size
    ensures (2 * size) as real * (-0.5 * (delta as real / size as real) + 1.0) == (2 * size - delta) as real
  {
    var (d, s) := (delta as real, size as real);
    var q := d / s;
    assert q * s == d;
  }

  /** At every point of every run that starts with an empty cache, the multiplier of a plan that reads
      anything lies in [0.5, 1]: 0.5 exactly when all it reads is loaded, 1 exactly when nothing is. It is
      no number exactly when the plan reads nothing. */
  lemma MultiplierInRange(states: seq<seq<Entry>>, rs: seq<Request>, catalog: Catalog, budget: int, chunk: int,
                          k: nat, r: Resources)
    requires IsRun(states, rs, catalog, budget, chunk) && k <= |rs| && r.Known(catalog)
    ensures var loaded, size := LoadedOf(r, states[k]), SizeOf(r, catalog);
            var cost := LoadingCost(loaded, size);
            && size >= 0 && (cost.NotANumber? <==> size == 0)
            && (cost.Value? ==>
                  && 0.5 <= cost.v <= 1.0
                  && (cost.v == 0.5 <==> loaded == size)
                  && (cost.v == 1.0 <==> loaded == 0)
                  && (2 * size) as real * cost.v == (2 * size - loaded) as real)
  {
    RunWithin(states, rs, catalog, budget, chunk, k);
    TablesLoadedBounds(r.full, true, catalog, states[k]);
    TablesLoadedBounds(r.retrieved, false, catalog, states[k]);
    if SizeOf(r, catalog) > 0 { Fraction(LoadedOf(r, states[k]), SizeOf(r, catalog)); }
  }

  class Replica {
    const cache: Cache
    const catalog: Catalog
    /** Everything loaded so far, in order. */
    ghost var loads: seq<Request>
    /** What the cache held before and after each of these loads. */
    ghost var states: seq<seq<Entry>>

    constructor (cacheSize: int, blockSize: int, catalog: Catalog)
      requires cacheSize > 0 && blockSize > 0
      ensures Valid() && fresh(cache) && loads == [] && this.catalog == catalog
      ensures cache.cacheSize == cacheSize && cache.blockSize == blockSize
    {
      cache := new Cache(cacheSize, blockSize);
      this.catalog := catalog;
      loads, states := [], [[]];
    }

    /** The cache holds what the run of all loads leaves. */
    ghost predicate Valid()
      reads this, cache, cache.nodes
    {
      && cache.Valid() && cache.timeIdx == |loads|
      && IsRun(states, loads, catalog, cache.cacheSize, cache.Chunk()) && cache.contents == states[|loads|]
    }

    /** The cache was asked for what the request names: an index by its hash, a table whole or for a few rows. */
    ghost predicate IsHeld(before: seq<Entry>, req: Request)
      requires cache.Valid() && Sizes(before) && req.Known(catalog)
      reads cache, cache.nodes
    {
      match req
      case LoadIndex(i) => cache.IsCached(before, cache.contents, Entry(IndexKey(i.hash), i.size, cache.timeIdx))
      case LoadTable(name, full) =>
        var size := if full then catalog[name] else catalog[name] / 100000;
        cache.IsCached(before, cache.contents, Entry(TableKey(name), size, cache.timeIdx))
    }

    method StatusLoaded(name: string) returns (size: int)
      requires cache.Valid()
      ensures size == Loaded(cache.contents, TableKey(name))
    {
      size := cache.GetSize(name);
    }

    method GetCurrRamLoaded(r: Resources) returns (ans: int)
      requires cache.Valid()
      ensures ans == LoadedOf(r, cache.contents)
    {
      ans := 0;
      ghost var es := cache.contents;
      for i := 0 to |r.full|
        invariant ans + TablesLoaded(r.full[i..], true, es) == TablesLoaded(r.full, true, es)
      {
        var size := StatusLoaded(r.full[i]);
        ans := ans + size;
      }
      for i := 0 to |r.indexes|
        invariant ans + IndexSizes(r.indexes[i..]) == TablesLoaded(r.full, true, es) + IndexSizes(r.indexes)
      {
        ans := ans + r.indexes[i].size;
      }
      for i := 0 to |r.retrieved|
        invariant ans + TablesLoaded(r.retrieved[i..], false, es) == LoadedOf(r, es)
      {
        var size := StatusLoaded(r.retrieved[i]);
        ans := ans + size / 100000;
      }
    }

    /** Whatever was loaded before, the multiplier lies in [0.5, 1]; it is no number when nothing is read. */
    method GetLoadingCost(r: Resources) returns (cost: Multiplier)
      requires Valid() && r.Known(catalog)
      ensures cost == LoadingCost(LoadedOf(r, cache.contents), SizeOf(r, catalog))
      ensures var size := SizeOf(r, catalog);
              if size == 0 then cost.NotANumber?
              else
                && cost.Value? && 0.5 <= cost.v <= 1.0
                && (2 * size) as real * cost.v == (2 * size - LoadedOf(r, cache.contents)) as real
    {
      var size: int := 0;
      for i := 0 to |r.full|
        invariant size + TableSizes(r.full[i..], true, catalog) == TableSizes(r.full, true, catalog)
      {
        size := size + catalog[r.full[i]];
      }
      for i := 0 to |r.retrieved|
        invariant size + TableSizes(r.retrieved[i..], false, catalog)
          == TableSizes(r.full, true, catalog) + TableSizes(r.retrieved, false, catalog)
      {
        size := size + catalog[r.retrieved[i]] / 100000;
      }
      for i := 0 to |r.indexes|
        invariant size + IndexSizes(r.indexes[i..]) == SizeOf(r, catalog)
      {
        size := size + r.indexes[i].size;
      }
      var delta := GetCurrRamLoaded(r);
      cost := LoadingCost(delta, size);
      MultiplierInRange(states, loads, catalog, cache.cacheSize, cache.Chunk(), |loads|, r);
    }

    method AddNode(req: Request)
      requires cache.Valid() && cache.timeIdx + 1 < MAX_INTEGER && req.Known(catalog)
      modifies cache, cache.nodes
      ensures cache.Valid() && cache.timeIdx == old(cache.timeIdx) + 1 && fresh(cache.nodes - old(cache.nodes))
      ensures IsStep(old(cache.contents), req, cache.timeIdx, cache.contents, catalog, cache.cacheSize, cache.Chunk())
      ensures IsHeld(old(cache.contents), req)
    {
      match req
      case LoadIndex(index) => cache.AddIndex(index.hash, index.size);
      case LoadTable(name, full) => cache.AddTable(name, catalog[name], full);
    }

    method LoadInCache(req: Request)
      requires Valid() && |loads| + 1 < MAX_INTEGER && req.Known(catalog)
      modifies this`loads, this`states, cache, cache.nodes
      ensures Valid() && loads == old(loads) + [req] && fresh(cache.nodes - old(cache.nodes))
    {
      AddNode(req);
      RunExtended(states, loads, req, cache.contents, catalog, cache.cacheSize, cache.Chunk());
      loads, states := loads + [req], states + [cache.contents];
    }

    method LoadIndexes(indexes: seq<IndexSize>)
      requires Valid() && |loads| + |indexes| < MAX_INTEGER
      modifies this`loads, this`states, cache, cache.nodes
      ensures Valid() && loads == old(loads) + IndexRequests(indexes) && fresh(cache.nodes - old(cache.nodes))
    {
      for i := 0 to |indexes|
        invariant Valid() && loads == old(loads) + IndexRequests(indexes[..i]) && fresh(cache.nodes - old(cache.nodes))
      {
        LoadInCache(LoadIndex(indexes[i]));
        assert IndexRequests(indexes[..i + 1]) == IndexRequests(indexes[..i]) + [LoadIndex(indexes[i])];
      }
      assert indexes[..|indexes|] == indexes;
    }

    method LoadTables(tables: seq<string>, full: bool)
      requires Valid() && |loads| + |tables| < MAX_INTEGER && forall t :: t in tables ==> t in catalog
      modifies this`loads, this`states, cache, cache.nodes
      ensures Valid() && loads == old(loads) + TableRequests(tables, full) && fresh(cache.nodes - old(cache.nodes))
    {
      for i := 0 to |tables|
        invariant Valid() && loads == old(loads) + TableRequests(tables[..i], full) && fresh(cache.nodes - old(cache.nodes))
      {
        LoadInCache(LoadTable(tables[i], full));
        assert TableRequests(tables[..i + 1], full) == TableRequests(tables[..i], full) + [LoadTable(tables[i], full)];
      }
      assert tables[..|tables|] == tables;
    }

    /** Loads everything a request reads: indexes, whole tables, then tables rows are fetched from. */
    method LoadResources(r: Resources)
      requires Valid() && r.Known(catalog) && |loads| + |RequestsOf(r)| < MAX_INTEGER
      modifies this`loads, this`states, cache, cache.nodes
      ensures Valid() && loads == old(loads) + RequestsOf(r) && fresh(cache.nodes - old(cache.nodes))
    {
      LoadIndexes(r.indexes);
      LoadTables(r.full, true);
      LoadTables(r.retrieved, false);
    }
  }

  function IndexRequests(indexes: seq<IndexSize>): seq<Request> {
    seq(|indexes|, i requires 0 <= i < |indexes| => LoadIndex(indexes[i]))
  }

  function TableRequests(tables: seq<string>, full: bool): seq<Request> {
    seq(|tables|, i requires 0 <= i < |tables| => LoadTable(tables[i], full))
  }

  function RequestsOf(r: Resources): (rs: seq<Request>)
    ensures |rs| == |r.indexes| + |r.full| + |r.retrieved|
    ensures forall i :: 0 <= i < |r.indexes| ==> rs[i] == LoadIndex(r.indexes[i])
    ensures forall i :: 0 <= i < |r.full| ==> rs[|r.indexes| + i] == LoadTable(r.full[i], true)
    ensures forall i :: 0 <= i < |r.retrieved| ==> rs[|r.indexes| + |r.full| + i] == LoadTable(r.retrieved[i], false)
  {
    IndexRequests(r.indexes) + TableRequests(r.full, true) + TableRequests(r.retrieved, false)
  }
}
