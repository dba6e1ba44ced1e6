/** Joining tables in topological order, with a fallback for cyclic links. */
module TopologicalSort {
  import opened Names
  import opened Plans
  import opened LinkGraph
  import opened Sequences

  datatype Link = NESTED_LOOP | HASH_JOIN | MERGE_JOIN

  datatype Edge = Edge(table: string, link: Link, foreign: bool)

  /** Some link is a hash join, and all links before it are merge joins. */
  ghost predicate HashDecides(edges: seq<Edge>) {
    exists i :: 0 <= i < |edges| && edges[i].link == HASH_JOIN && forall j :: 0 <= j < i ==> edges[j].link == MERGE_JOIN
  }

  /** The join under which a table with these incoming links is added. */
  ghost function JoinKind(edges: seq<Edge>): Kind {
    var foreign := exists e :: e in edges && e.foreign;
    if HashDecides(edges) then HashJoin(foreign) else NestedJoin(foreign)
  }

  /** The links between tables other than those already done. */
  ghost function GraphOf(rm: map<string, seq<Edge>>, done: set<string>): Predecessors {
    map t | t in rm && t !in done :: set e | e in rm[t] && e.table !in done :: e.table
  }

  /** The table with an empty list if it had none. */
  function Declared<T>(links: map<string, seq<T>>, t: string): (r: map<string, seq<T>>)
    ensures r.Keys == links.Keys + {t}
  {
    if t in links then links else links[t := []]
  }

  /** Both tables are listed, and one of them has one more entry. */
  function Linked<T>(links: map<string, seq<T>>, from: string, to: string, at: string, e: T): (r: map<string, seq<T>>)
    requires at == from || at == to
    ensures r.Keys == links.Keys + {from, to}
  {
    var declared := Declared(Declared(links, from), to);
    declared[at := declared[at] + [e]]
  }

  /** So every table keeps its list, which is empty for a new one, and exactly one list gets one more entry. */
  lemma LinkedLists<T>(links: map<string, seq<T>>, from: string, to: string, at: string, e: T)
    requires at == from || at == to
    ensures var (declared, linked) := (Declared(Declared(links, from), to), Linked(links, from, to, at, e));
            && declared.Keys == linked.Keys == links.Keys + {from, to}
            && (forall t :: t in links ==> declared[t] == links[t] && linked[t] == links[t] + if t == at then [e] else [])
            && forall t :: t in {from, to} && t !in links ==> declared[t] == [] && linked[t] == if t == at then [e] else []
  {
  }

  function Times(edges: seq<Edge>, e: Edge): nat {
    multiset(edges)[e]
  }

  /** Links lead to listed tables only. */
  ghost predicate Closed(rm: map<string, seq<Edge>>) {
    forall t, e :: t in rm && e in rm[t] ==> e.table in rm
  }

  /** Foreign links are never among the stored ones. */
  ghost predicate NoneForeign(links: map<string, seq<Edge>>) {
    forall t, e :: t in links && e in links[t] ==> !e.foreign
  }

  /** Every link is stored at both of its ends, equally often. */
  ghost predicate Mirrored(m: map<string, seq<Edge>>, rm: map<string, seq<Edge>>) {
    forall a, b, l {:trigger Edge(b, l, false), Edge(a, l, false)} :: a in m && b in rm ==>
      Times(m[a], Edge(b, l, false)) == Times(rm[b], Edge(a, l, false))
  }

  ghost predicate Consistent(m: map<string, seq<Edge>>, rm: map<string, seq<Edge>>) {
    m.Keys == rm.Keys && Closed(m) && Closed(rm) && NoneForeign(m) && NoneForeign(rm) && Mirrored(m, rm)
  }

  lemma TimesOneMore(edges: seq<Edge>, e: Edge, f: Edge)
    ensures Times(edges + [e], f) == Times(edges, f) + if e == f then 1 else 0
    ensures Times([], f) == 0
  {
  }

  lemma LinkedClosed(links: map<string, seq<Edge>>, from: string, to: string, at: string, e: Edge)
    requires Closed(links) && (at == from || at == to) && (e.table == from || e.table == to)
    ensures Closed(Declared(Declared(links, from), to)) && Closed(Linked(links, from, to, at, e))
  {
    var declared, linked := Declared(Declared(links, from), to), Linked(links, from, to, at, e);
    forall t: string, f: Edge | t in linked && f in linked[t] ensures f.table in linked {
      if t == at && f in declared[at] { assert f == e || at in links; }
    }
  }

  lemma LinkedNoneForeign(links: map<string, seq<Edge>>, from: string, to: string, at: string, e: Edge)
    requires NoneForeign(links) && (at == from || at == to) && !e.foreign
    ensures NoneForeign(Declared(Declared(links, from), to)) && NoneForeign(Linked(links, from, to, at, e))
  {
  }

  lemma DeclaredMirrored(m: map<string, seq<Edge>>, rm: map<string, seq<Edge>>, from: string, to: string)
    requires Consistent(m, rm)
    ensures Mirrored(Declared(Declared(m, from), to), Declared(Declared(rm, from), to))
  {
    var m', rm' := Declared(Declared(m, from), to), Declared(Declared(rm, from), to);
    forall a, b, l | a in m' && b in rm'
      ensures Times(m'[a], Edge(b, l, false)) == Times(rm'[b], Edge(a, l, false))
    {
      DeclaredTimes(m, rm, from, to, a, b, l);
    }
  }

  lemma AddedMirrored(m: map<string, seq<Edge>>, rm: map<string, seq<Edge>>, from: string, to: string, link: Link)
    requires Mirrored(m, rm) && from in m && to in rm
    ensures Mirrored(m[from := m[from] + [Edge(to, link, false)]], rm[to := rm[to] + [Edge(from, link, false)]])
  {
    var m', rm' := m[from := m[from] + [Edge(to, link, false)]], rm[to := rm[to] + [Edge(from, link, false)]];
    forall a, b, l | a in m' && b in rm'
      ensures Times(m'[a], Edge(b, l, false)) == Times(rm'[b], Edge(a, l, false))
    {
      TimesOneMore(m[from], Edge(to, link, false), Edge(b, l, false));
      TimesOneMore(rm[to], Edge(from, link, false), Edge(a, l, false));
      assert Times(m[a], Edge(b, l, false)) == Times(rm[b], Edge(a, l, false));
    }
  }

  /** A new link keeps both maps in step. */
  lemma LinkedConsistent(m: map<string, seq<Edge>>, rm: map<string, seq<Edge>>, from: string, to: string, link: Link)
    requires Consistent(m, rm)
    ensures Consistent(Declared(Declared(m, from), to), Declared(Declared(rm, from), to))
    ensures Consistent(Linked(m, from, to, from, Edge(to, link, false)), Linked(rm, from, to, to, Edge(from, link, false)))
  {
    var (out, back) := (Edge(to, link, false), Edge(from, link, false));
    LinkedClosed(m, from, to, from, out);
    LinkedClosed(rm, from, to, to, back);
    LinkedNoneForeign(m, from, to, from, out);
    LinkedNoneForeign(rm, from, to, to, back);
    DeclaredMirrored(m, rm, from, to);
    AddedMirrored(Declared(Declared(m, from), to), Declared(Declared(rm, from), to), from, to, link);
  }

  lemma DeclaredTimes(m: map<string, seq<Edge>>, rm: map<string, seq<Edge>>, from: string, to: string, a: string,
                      b: string, l: Link)
    requires Consistent(m, rm) && a in m.Keys + {from, to} && b in m.Keys + {from, to}
    ensures Times(Declared(Declared(m, from), to)[a], Edge(b, l, false)) == Times(Declared(Declared(rm, from), to)[b], Edge(a, l, false))
  {
    if a in m && b in rm {
      assert Times(m[a], Edge(b, l, false)) == Times(rm[b], Edge(a, l, false));
    } else if a in m {
      NoLinkTo(m, rm, a, b, l);
    } else if b in rm {
      assert Edge(a, l, false) !in rm[b];
    }
  }

  /** No link leads to a table that is not listed. */
  lemma NoLinkTo(m: map<string, seq<Edge>>, rm: map<string, seq<Edge>>, a: string, b: string, l: Link)
    requires Consistent(m, rm) && a in m && b !in rm
    ensures Times(m[a], Edge(b, l, false)) == 0
  {
  }

  /** A lookup that finds null where there is no entry. */
  function OperationOf(tables: map<string, Operation>, t: string): Operation? {
    if t in tables then tables[t] else null
  }

  /** Each operator joins one more table, in the given order, to the operator before it; the first
      `sorted` tables were picked as sources, the others by the fallback. */
  ghost predicate Chained(rm: map<string, seq<Edge>>, spine: seq<Operation>, order: seq<string>, sorted: nat,
                          tables: map<string, Operation>)
  {
    && |spine| == |order| + 1
    && forall i :: 0 <= i < |order| ==> JoinsNext(rm, spine[i + 1], order[i], i < sorted, spine[i], tables)
  }

  ghost predicate JoinsNext(rm: map<string, seq<Edge>>, join: Operation, t: string, source: bool, before: Operation,
                            tables: map<string, Operation>)
  {
    t in rm && join.kind == (if source then JoinKind(rm[t]) else NestedJoin(false)) &&
    join.children == [if t in tables then tables[t] else null, before]
  }

  /** Whether an operator joins this operation to what was joined before. */
  ghost predicate Joins(join: Operation, o: Operation) {
    join.children != [] && join.children[0] == o
  }

  /** Where along a spine it is joined. */
  ghost function Places(spine: seq<Operation>, o: Operation): set<nat> {
    set i | 0 < i < |spine| && Joins(spine[i], o)
  }

  ghost function TablesWith(order: seq<string>, tables: map<string, Operation>, o: Operation): set<string> {
    set t | t in order && t in tables && tables[t] == o
  }

  lemma PlacesOneMore(spine: seq<Operation>, join: Operation, o: Operation)
    requires spine != []
    ensures |Places(spine + [join], o)| == |Places(spine, o)| + if Joins(join, o) then 1 else 0
  {
    assert Places(spine + [join], o) == Places(spine, o) + if Joins(join, o) then {|spine|} else {};
  }

  lemma TablesOneMore(order: seq<string>, t: string, tables: map<string, Operation>, o: Operation)
    requires t !in order
    ensures |TablesWith(order + [t], tables, o)| == |TablesWith(order, tables, o)| + if t in tables && tables[t] == o then 1 else 0
  {
    assert TablesWith(order + [t], tables, o) == TablesWith(order, tables, o) + if t in tables && tables[t] == o then {t} else {};
  }

  /** An operation is joined as often as there are tables in the order that have it. */
  lemma {:induction false} JoinedPerTable(rm: map<string, seq<Edge>>, spine: seq<Operation>, order: seq<string>,
                                          sorted: nat, tables: map<string, Operation>, o: Operation, n: nat)
    requires Chained(rm, spine, order, sorted, tables) && NoDuplicates(order) && n <= |order|
    ensures |Places(spine[..n + 1], o)| == |TablesWith(order[..n], tables, o)|
  {
    if n == 0 {
      assert Places(spine[..1], o) == {} && TablesWith(order[..0], tables, o) == {};
    } else {
      JoinedPerTable(rm, spine, order, sorted, tables, o, n - 1);
      assert JoinsNext(rm, spine[n - 1 + 1], order[n - 1], n - 1 < sorted, spine[n - 1], tables);
      assert order[..n] == order[..n - 1] + [order[n - 1]] && spine[..n + 1] == spine[..n] + [spine[n]];
      PlacesOneMore(spine[..n], spine[n], o);
      TablesOneMore(order[..n - 1], order[n - 1], tables, o);
    }
  }

  /** So along the whole spine: exactly the operations of the tables joined, each as often as tables have it. */
  lemma EachOperationJoined(rm: map<string, seq<Edge>>, spine: seq<Operation>, order: seq<string>, sorted: nat,
                            tables: map<string, Operation>, joined: set<string>)
    requires Chained(rm, spine, order, sorted, tables) && Lists(order, joined)
    ensures forall o :: |Places(spine, o)| == |set t | t in joined && t in tables && tables[t] == o|
  {
    forall o ensures |Places(spine, o)| == |set t | t in joined && t in tables && tables[t] == o| {
      JoinedPerTable(rm, spine, order, sorted, tables, o, |order|);
      assert order[..|order|] == order;
      assert spine[..|order| + 1] == spine;
      assert TablesWith(order, tables, o) == set t | t in joined && t in tables && tables[t] == o;
    }
  }

  lemma ExtendChain(rm: map<string, seq<Edge>>, spine: seq<Operation>, order: seq<string>, sorted: nat,
                    tables: map<string, Operation>, t: string, join: Operation)
    requires Chained(rm, spine, order, sorted, tables)
    requires JoinsNext(rm, join, t, |order| < sorted, spine[|order|], tables)
    ensures Chained(rm, spine + [join], order + [t], sorted, tables)
  {
  }

  lemma ChainedUpTo(rm: map<string, seq<Edge>>, spine: seq<Operation>, order: seq<string>, sorted: nat, other: nat,
                    tables: map<string, Operation>)
    requires Chained(rm, spine, order, sorted, tables) && sorted >= |order| && other >= |order|
    ensures Chained(rm, spine, order, other, tables)
  {
    forall i | 0 <= i < |order| ensures JoinsNext(rm, spine[i + 1], order[i], i < other, spine[i], tables) {
      assert JoinsNext(rm, spine[i + 1], order[i], i < sorted, spine[i], tables);
    }
  }

  /** Since no stored link is foreign, no join is flagged as one. */
  lemma NoJoinFlagged(rm: map<string, seq<Edge>>, spine: seq<Operation>, order: seq<string>, sorted: nat,
                      tables: map<string, Operation>)
    requires NoneForeign(rm) && Chained(rm, spine, order, sorted, tables)
    ensures forall i :: 0 < i < |spine| ==> spine[i].kind == HashJoin(false) || spine[i].kind == NestedJoin(false)
  {
    forall i | 0 < i < |spine| ensures spine[i].kind == HashJoin(false) || spine[i].kind == NestedJoin(false) {
      assert JoinsNext(rm, spine[i - 1 + 1], order[i - 1], i - 1 < sorted, spine[i - 1], tables);
    }
  }

  class TopoSort {
    var m: map<string, seq<Edge>>
    var rm: map<string, seq<Edge>>
    var foreigns: map<string, seq<string>>
    /** The tables whose `visited` flag is set. */
    var visited: set<string>
    var parent: Operation

    constructor (parent: Operation)
      ensures Valid() && m == map[] && visited == {} && this.parent == parent
    {
      m, rm, foreigns, visited, this.parent := map[], map[], map[], {}, parent;
    }

    ghost predicate Valid()
      reads this
    {
      Consistent(m, rm)
    }

    method Declare(t: string)
      requires m.Keys == rm.Keys
      modifies this`m, this`rm
      ensures m.Keys == rm.Keys
      ensures m == Declared(old(m), t) && rm == Declared(old(rm), t)
    {
      if t !in m {
        m := m[t := []];
      }
      if t !in rm {
        rm := rm[t := []];
      }
    }

    /** Foreign links are only noted; any other link makes `to` wait for `from`. */
    method AddLink(from: string, to: string, link: Link, foreign: bool)
      requires Valid()
      modifies this`m, this`rm, this`foreigns
      ensures Valid()
      ensures foreign ==>
        && m == Declared(Declared(old(m), from), to) && rm == Declared(Declared(old(rm), from), to)
        && foreigns == Linked(old(foreigns), from, to, from, to)
      ensures !foreign ==>
        && m == Linked(old(m), from, to, from, Edge(to, link, false))
        && rm == Linked(old(rm), from, to, to, Edge(from, link, false))
        && foreigns == old(foreigns)
    {
      LinkedConsistent(m, rm, from, to, link);
      Declare(from);
      Declare(to);
      if foreign {
        NoteForeign(from, to);
        return;
      }
      m := m[from := m[from] + [Edge(to, link, foreign)]];
      rm := rm[to := rm[to] + [Edge(from, link, foreign)]];
    }

    method NoteForeign(from: string, to: string)
      modifies this`foreigns
      ensures foreigns == Linked(old(foreigns), from, to, from, to)
    {
      if from !in foreigns {
        foreigns := foreigns[from := []];
      }
      if to !in foreigns {
        foreigns := foreigns[to := []];
      }
      foreigns := foreigns[from := foreigns[from] + [to]];
    }

    ghost predicate IsSource(t: string)
      reads this
    {
      t in m && t in rm && t !in visited && forall e :: e in rm[t] ==> e.table in visited
    }

    /** Which join to use for a table with these incoming links. */
    static method ChooseJoin(edges: seq<Edge>) returns (kind: Kind)
      ensures kind == JoinKind(edges)
      ensures kind.HashJoin? || kind.NestedJoin?
      ensures kind.HashJoin? <==>
        exists i :: 0 <= i < |edges| && edges[i].link == HASH_JOIN && forall j :: 0 <= j < i ==> edges[j].link == MERGE_JOIN
      ensures kind.foreignKey <==> exists e :: e in edges && e.foreign
    {
      var link := NESTED_LOOP;
      for i := 0 to |edges|
        invariant link == (if i == 0 then NESTED_LOOP else MERGE_JOIN)
        invariant forall j :: 0 <= j < i ==> edges[j].link == MERGE_JOIN
      {
        if edges[i].link == HASH_JOIN {
          link := HASH_JOIN;
          break;
        } else if edges[i].link == NESTED_LOOP {
          link := NESTED_LOOP;
          break;
        } else {
          link := MERGE_JOIN;
        }
      }
      assert link == HASH_JOIN <==> HashDecides(edges);
      var foreign := false;
      for j := 0 to |edges|
        invariant foreign <==> exists e :: e in edges[..j] && e.foreign
      {
        if edges[j].foreign {
          foreign := true;
        }
      }
      assert edges[..|edges|] == edges;
      kind := if link == HASH_JOIN then HashJoin(foreign) else NestedJoin(foreign);
    }

    method AllVisited(edges: seq<Edge>) returns (ok: bool)
      ensures ok <==> forall e :: e in edges ==> e.table in visited
    {
      ok := true;
      for i := 0 to |edges|
        invariant ok && forall e :: e in edges[..i] ==> e.table in visited
      {
        if edges[i].table !in visited {
          ok := false;
          break;
        }
      }
    }

    /** The unvisited tables all of whose predecessors are visited, the first by name in front. */
    method FindPossible() returns (possible: seq<string>, notVisited: nat)
      requires Valid()
      ensures notVisited == 0 <==> m.Keys <= visited
      ensures forall t :: t in possible <==> IsSource(t)
      ensures possible != [] ==> forall t :: IsSource(t) ==> Leq(possible[0], t)
    {
      possible, notVisited := [], 0;
      var rest := m.Keys;
      while rest != {}
        invariant rest <= m.Keys
        invariant notVisited == 0 <==> m.Keys - rest <= visited
        invariant forall t :: t in possible <==> IsSource(t) && t !in rest
        invariant possible != [] ==> forall t :: t in rest || IsSource(t) ==> Leq(possible[0], t)
      {
        ghost var first := FirstExists(rest);
        var node :| node in rest && forall u :: u in rest ==> Leq(node, u);
        rest := rest - {node};
        if node !in visited {
          notVisited := notVisited + 1;
          var ok := AllVisited(rm[node]);
          assert ok <==> IsSource(node);
          if ok {
            if possible == [] {
              assert forall t :: IsSource(t) ==> t in rest + {node};
            }
            possible := possible + [node];
          }
        }
      }
    }

    /** When every unvisited table still waits for another unvisited one, the open links are cyclic. */
    lemma NoSourceIsCyclic(done: set<string>)
      requires Valid() && done <= visited && !(m.Keys <= visited) && forall t :: !IsSource(t)
      ensures Cyclic(GraphOf(rm, done))
    {
      var g, open := GraphOf(rm, done), m.Keys - visited;
      var t0 :| t0 in m && t0 !in visited;
      assert t0 in open;
      forall t | t in open ensures Waits(g, t, open) {
        assert !IsSource(t);
        var e :| e in rm[t] && e.table !in visited;
        assert e.table in g[t] && e.table in open;
      }
      StuckIsCyclic(g, open);
    }

    /** The fallback: nested joins over the unvisited tables, in name order. */
    method JoinRest(dictionary: map<string, Operation>, ghost done: set<string>, ghost order0: seq<string>,
                    ghost spine0: seq<Operation>)
      returns (res: Operation, ghost order: seq<string>, ghost spine: seq<Operation>)
      requires Valid() && done <= visited && Lists(order0, visited - done)
      requires Chained(rm, spine0, order0, |order0|, dictionary) && spine0[|order0|] == parent
      modifies this`parent
      ensures order0 <= order && Lists(order, visited - done + (m.Keys - visited)) && parent == res
      ensures forall i, j :: |order0| <= i < j < |order| ==> Leq(order[i], order[j])
      ensures Chained(rm, spine, order, |order0|, dictionary) && spine[0] == spine0[0] && spine[|order|] == res
    {
      order, spine := order0, spine0;
      var rest := m.Keys;
      ghost var listed := visited - done;
      while rest != {}
        invariant rest <= m.Keys && listed == visited - done + (m.Keys - rest - visited)
        invariant order0 <= order && Lists(order, listed)
        invariant forall i, u :: |order0| <= i < |order| && u in rest ==> Leq(order[i], u)
        invariant forall i, j :: |order0| <= i < j < |order| ==> Leq(order[i], order[j])
        invariant Chained(rm, spine, order, |order0|, dictionary) && spine[0] == spine0[0] && spine[|order|] == parent
      {
        ghost var first := FirstExists(rest);
        var node :| node in rest && forall u :: u in rest ==> Leq(node, u);
        rest := rest - {node};
        if node !in visited {
          var join := new Operation(NestedJoin(false), [OperationOf(dictionary, node), parent]);
          ExtendChain(rm, spine, order, |order0|, dictionary, node, join);
          ListsOneMore(order, listed, node);
          parent := join;
          order, spine, listed := order + [node], spine + [join], listed + {node};
        }
      }
      assert listed == visited - done + (m.Keys - visited);
      res := parent;
    }

    /** Since `done` were visited, the tables visited were joined in a greedy order. */
    ghost predicate Progress(dictionary: map<string, Operation>, done: set<string>, order: seq<string>,
                             spine: seq<Operation>, first: Operation)
      reads this
    {
      && Valid() && done <= visited && visited - done <= m.Keys
      && Lists(order, visited - done) && Greedy(GraphOf(rm, done), order)
      && Chained(rm, spine, order, |order|, dictionary) && spine[0] == first && spine[|order|] == parent
    }

    lemma SourceIsReady(done: set<string>, order: seq<string>, t: string)
      requires Valid() && done <= visited && Lists(order, visited - done)
      ensures IsSource(t) <==> IsReady(GraphOf(rm, done), order, t)
    {
      var g := GraphOf(rm, done);
      if t in g {
        assert forall e :: e in rm[t] ==> e.table in done || e.table in g[t];
        assert forall p :: p in g[t] ==> exists e :: e in rm[t] && e.table == p && p !in done;
      }
    }

    method JoinSource(selected: string, dictionary: map<string, Operation>, ghost done: set<string>,
                      ghost order: seq<string>,
                      ghost spine: seq<Operation>) returns (ghost spine': seq<Operation>)
      requires |spine| > 0 && Progress(dictionary, done, order, spine, spine[0])
      requires IsSource(selected) && forall t :: IsSource(t) ==> Leq(selected, t)
      modifies this`visited, this`parent
      ensures visited == old(visited) + {selected}
      ensures Progress(dictionary, done, order + [selected], spine', spine[0])
    {
      forall t ensures IsSource(t) <==> IsReady(GraphOf(rm, done), order, t) { SourceIsReady(done, order, t); }
      GreedyOneMore(GraphOf(rm, done), order, selected);
      ListsOneMore(order, visited - done, selected);
      visited := visited + {selected};
      assert visited - done == old(visited) - done + {selected};
      var kind := ChooseJoin(rm[selected]);
      var join := new Operation(kind, [OperationOf(dictionary, selected), parent]);
      ChainedUpTo(rm, spine, order, |order|, |order| + 1, dictionary);
      ExtendChain(rm, spine, order, |order| + 1, dictionary, selected, join);
      parent := join;
      spine' := spine + [join];
    }

    /** Joins every unvisited table once. While some unvisited table has only visited predecessors the first
        such table is next; when there is none, all tables left are joined in name order by nested joins. */
    method PerformTopoSort(dictionary: map<string, Operation>)
      returns (res: Operation, ghost order: seq<string>, ghost sorted: nat, ghost spine: seq<Operation>)
      requires Valid()
      modifies this`visited, this`parent
      ensures sorted <= |order| && Lists(order, m.Keys - old(visited))
      ensures var g := GraphOf(rm, old(visited));
              && Topological(g, order[..sorted]) && Greedy(g, order[..sorted])
              && (Cyclic(g) <==> sorted < |order|)
      ensures forall i, j :: sorted <= i < j < |order| ==> Leq(order[i], order[j])
      ensures Chained(rm, spine, order, sorted, dictionary) && spine[0] == old(parent) && spine[|order|] == res
      ensures forall i :: 0 < i < |spine| ==> spine[i].kind == HashJoin(false) || spine[i].kind == NestedJoin(false)
      ensures forall o ::
        |Places(spine, o)| == |set t | t in m.Keys - old(visited) && t in dictionary && dictionary[t] == o|
      ensures parent == res && forall t :: t in visited <==> t in old(visited) || t in order[..sorted]
    {
      ghost var done := visited;
      order, spine := [], [parent];
      while true
        invariant Progress(dictionary, done, order, spine, old(parent))
        decreases m.Keys - visited
      {
        var possible, notVisited := FindPossible();
        if notVisited == 0 {
          break;
        }
        if |possible| == 0 && notVisited > 0 {
          sorted := |order|;
          GreedyIsTopological(GraphOf(rm, done), order);
          assert forall t :: !IsSource(t);
          NoSourceIsCyclic(done);
          ghost var before := order;
          ghost var left :| left in m.Keys && left !in visited;
          res, order, spine := JoinRest(dictionary, done, order, spine);
          assert visited - done + (m.Keys - visited) == m.Keys - done;
          assert order[..sorted] == before && left in order && left !in before;
          NoJoinFlagged(rm, spine, order, sorted, dictionary);
          EachOperationJoined(rm, spine, order, sorted, dictionary, m.Keys - done);
          return;
        }
        var selected := possible[0];
        assert IsSource(selected);
        spine := JoinSource(selected, dictionary, done, order, spine);
        order := order + [selected];
      }
      sorted := |order|;
      assert order[..sorted] == order && visited - done == m.Keys - done == GraphOf(rm, done).Keys;
      GreedyIsTopological(GraphOf(rm, done), order);
      TopologicalIsAcyclic(GraphOf(rm, done), order);
      NoJoinFlagged(rm, spine, order, sorted, dictionary);
      EachOperationJoined(rm, spine, order, sorted, dictionary, m.Keys - done);
      res := parent;
    }
  }
}
