/** Operator trees, and the invariants of merging per-table plans into one. */
module Plans {
  import opened Expressions
  import opened Filters
  import opened Sequences

  datatype Kind = Scan | HashJoin(foreignKey: bool) | NestedJoin(foreignKey: bool) | FilterOn(filter: Filter)

  /** An operator object; two operators are the same only if they are the same object. */
  class Operation {
    const kind: Kind
    const children: seq<Operation?>

    constructor (kind: Kind, children: seq<Operation?>)
      ensures this.kind == kind && this.children == children
    {
      this.kind, this.children := kind, children;
    }
  }

  /** How an operator was put together from the plans a merging phase started with. */
  datatype Plan =
    | Start(op: Operation)
    | Filtered(op: Operation, below: Plan)
    | Joined(op: Operation, left: Plan, right: Plan)

  /** The plan describes its operators truly, and all its joins are of one kind. */
  ghost predicate Built(p: Plan, joins: Kind) {
    match p
    case Start(_) => true
    case Filtered(op, b) => op.kind.FilterOn? && op.children == [b.op] && Built(b, joins)
    case Joined(op, l, r) => op.kind == joins && op.children == [l.op, r.op] && Built(l, joins) && Built(r, joins)
  }

  /** The filters added on top of the starting plans. */
  ghost function FiltersOf(p: Plan): multiset<Filter> {
    match p
    case Start(_) => multiset{}
    case Filtered(op, b) => FiltersOf(b) + if op.kind.FilterOn? then multiset{op.kind.filter} else multiset{}
    case Joined(_, l, r) => FiltersOf(l) + FiltersOf(r)
  }

  /** The starting plans below an operator, with repetitions, from left to right. */
  ghost function Starts(p: Plan): seq<Operation> {
    match p
    case Start(op) => [op]
    case Filtered(_, b) => Starts(b)
    case Joined(_, l, r) => Starts(l) + Starts(r)
  }

  /** `q` is `p` under one filter per element of the list, the first one lowest. */
  ghost predicate Stacked(q: Plan, p: Plan, list: seq<Filter>) {
    if list == [] then q == p
    else
      q.Filtered? && q.op.kind == FilterOn(list[|list| - 1]) && q.op.children == [q.below.op] &&
      Stacked(q.below, p, list[..|list| - 1])
  }

  lemma {:induction false} StackedKeeps(q: Plan, p: Plan, list: seq<Filter>, joins: Kind)
    requires Stacked(q, p, list) && Built(p, joins)
    ensures Built(q, joins) && Starts(q) == Starts(p) && FiltersOf(q) == FiltersOf(p) + multiset(list)
  {
    if list != [] {
      var n := |list| - 1;
      StackedKeeps(q.below, p, list[..n], joins);
      assert list == list[..n] + [list[n]];
    }
  }

  type Forest = map<Operation, Plan>

  /** Table `u` started with a plan that is now in the tree under `o`. */
  ghost predicate StartsUnder(start: map<string, Operation>, u: string, o: Operation, forest: Forest) {
    u in start && o in forest && start[u] in Starts(forest[o])
  }

  /** A tree of different starting plans: exactly those of the tables that have its root as their operation. */
  ghost predicate IsTree(start: map<string, Operation>, ops: map<string, Operation>, o: Operation, forest: Forest,
                         joins: Kind)
  {
    && o in forest && forest[o].op == o && Built(forest[o], joins)
    && NoDuplicates(Starts(forest[o])) && (forall x :: x in Starts(forest[o]) ==> x in start.Values)
    && forall u :: u in ops ==> (StartsUnder(start, u, o, forest) <==> ops[u] == o)
  }

  /** `ops` maps every table to the root of the tree that holds the plan it started with; no starting
      plan is in two trees or twice in one. */
  ghost predicate IsForest(start: map<string, Operation>, ops: map<string, Operation>, forest: Forest, joins: Kind) {
    && ops.Keys == start.Keys
    && forall t {:trigger IsTree(start, ops, ops[t], forest, joins)} :: t in ops ==> IsTree(start, ops, ops[t], forest, joins)
  }

  ghost function Singletons(ops: map<string, Operation>): Forest {
    map o | o in ops.Values :: Start(o)
  }

  lemma SingletonsForest(ops: map<string, Operation>, joins: Kind)
    ensures IsForest(ops, ops, Singletons(ops), joins)
  {
  }

  lemma {:induction false} SingletonsHaveNoFilters(ops: map<string, Operation>, roots: set<Operation>)
    requires roots <= ops.Values
    ensures FiltersIn(Singletons(ops), roots) == multiset{}
  {
    if roots != {} {
      var o :| o in roots;
      FiltersPick(Singletons(ops), roots, o);
      SingletonsHaveNoFilters(ops, roots - {o});
    }
  }

  function Redirect(ops: map<string, Operation>, from: Operation, to: Operation): map<string, Operation> {
    map t | t in ops :: if ops[t] == from then to else ops[t]
  }

  ghost predicate IsNew(o: Operation, ops: map<string, Operation>) {
    forall t :: t in ops ==> ops[t] != o
  }

  /** Both roots replaced by one. */
  ghost function Merged(ops: map<string, Operation>, o1: Operation, o2: Operation,
                        root: Operation): map<string, Operation>
  {
    map t | t in ops :: if ops[t] == o1 || ops[t] == o2 then root else ops[t]
  }

  /** Two trees of a forest have no starting plan in common. */
  lemma TreesDisjoint(start: map<string, Operation>, ops: map<string, Operation>, forest: Forest, o1: Operation,
                      o2: Operation, x: Operation, joins: Kind)
    requires ops.Keys == start.Keys && IsTree(start, ops, o1, forest, joins) && IsTree(start, ops, o2, forest, joins)
    requires x in Starts(forest[o1]) && x in Starts(forest[o2])
    ensures o1 == o2
  {
    var u :| u in start && start[u] == x;
    assert StartsUnder(start, u, o1, forest) && StartsUnder(start, u, o2, forest);
  }

  /** Redirecting both roots to a new operator, and that to the one on top of it, is a merge. */
  lemma RedirectsMerge(ops: map<string, Operation>, o1: Operation, o2: Operation, join: Operation, root: Operation)
    requires IsNew(join, ops)
    ensures Redirect(Redirect(Redirect(ops, o1, join), o2, join), join, root) == Merged(ops, o1, o2, root)
  {
    var a := Redirect(ops, o1, join);
    var b := Redirect(a, o2, join);
    forall t | t in ops ensures Redirect(b, join, root)[t] == Merged(ops, o1, o2, root)[t] {
      assert ops[t] != join;
    }
  }

  lemma MergedStarts(start: map<string, Operation>, u: string, o1: Operation, o2: Operation, forest: Forest, q: Plan)
    requires o1 in forest && o2 in forest && Starts(q) == Starts(forest[o1]) + Starts(forest[o2])
    ensures StartsUnder(start, u, q.op, forest[q.op := q])
       <==> StartsUnder(start, u, o1, forest) || StartsUnder(start, u, o2, forest)
  {
  }

  lemma MergedTree(start: map<string, Operation>, ops: map<string, Operation>, forest: Forest, o1: Operation,
                   o2: Operation, q: Plan, joins: Kind)
    requires ops.Keys == start.Keys && IsTree(start, ops, o1, forest, joins) && IsTree(start, ops, o2, forest, joins) && o1 != o2
    requires IsNew(q.op, ops) && Built(q, joins) && Starts(q) == Starts(forest[o1]) + Starts(forest[o2])
    ensures IsTree(start, Merged(ops, o1, o2, q.op), q.op, forest[q.op := q], joins)
  {
    var s1, s2 := Starts(forest[o1]), Starts(forest[o2]);
    forall x | x in s1 ensures x !in s2 {
      if x in s2 { TreesDisjoint(start, ops, forest, o1, o2, x, joins); }
    }
    ConcatNoDuplicates(s1, s2);
    forall u | u in ops ensures StartsUnder(start, u, q.op, forest[q.op := q]) <==> Merged(ops, o1, o2, q.op)[u] == q.op {
      MergedStarts(start, u, o1, o2, forest, q);
    }
  }

  lemma OtherTree(start: map<string, Operation>, ops: map<string, Operation>, forest: Forest, o: Operation,
                  o1: Operation, o2: Operation, q: Plan, joins: Kind)
    requires ops.Keys == start.Keys && IsTree(start, ops, o, forest, joins) && o != o1 && o != o2 && o != q.op
    ensures IsTree(start, Merged(ops, o1, o2, q.op), o, forest[q.op := q], joins)
  {
    var ops' := Merged(ops, o1, o2, q.op);
    forall u | u in ops' ensures StartsUnder(start, u, o, forest[q.op := q]) <==> ops'[u] == o {
      assert StartsUnder(start, u, o, forest) <==> ops[u] == o;
    }
  }

  /** Joining two different trees under a new root keeps the forest. */
  lemma MergedForest(start: map<string, Operation>, ops: map<string, Operation>, forest: Forest,
                     t1: string, t2: string, q: Plan, joins: Kind)
    requires IsForest(start, ops, forest, joins)
    requires t1 in ops && t2 in ops && ops[t1] != ops[t2]
    requires ops[t1] in forest && ops[t2] in forest
    requires IsNew(q.op, ops) && Built(q, joins) && Starts(q) == Starts(forest[ops[t1]]) + Starts(forest[ops[t2]])
    ensures IsForest(start, Merged(ops, ops[t1], ops[t2], q.op), forest[q.op := q], joins)
  {
    var o1, o2 := ops[t1], ops[t2];
    var ops' := Merged(ops, o1, o2, q.op);
    assert IsTree(start, ops, ops[t1], forest, joins) && IsTree(start, ops, ops[t2], forest, joins);
    MergedTree(start, ops, forest, o1, o2, q, joins);
    forall t | t in ops' ensures IsTree(start, ops', ops'[t], forest[q.op := q], joins) {
      if ops'[t] != q.op {
        assert IsTree(start, ops, ops[t], forest, joins);
        OtherTree(start, ops, forest, ops[t], o1, o2, q, joins);
      }
    }
  }

  ghost function FiltersAt(forest: Forest, o: Operation): multiset<Filter> {
    if o in forest then FiltersOf(forest[o]) else multiset{}
  }

  /** The filters added in some trees of a forest, together. */
  ghost function FiltersIn(forest: Forest, roots: set<Operation>): multiset<Filter> {
    if roots == {} then multiset{}
    else
      var o :| o in roots;
      FiltersAt(forest, o) + FiltersIn(forest, roots - {o})
  }

  lemma {:induction false} FiltersPick(forest: Forest, roots: set<Operation>, x: Operation)
    requires x in roots
    ensures FiltersIn(forest, roots) == FiltersAt(forest, x) + FiltersIn(forest, roots - {x})
  {
    var o :| o in roots && FiltersIn(forest, roots) == FiltersAt(forest, o) + FiltersIn(forest, roots - {o});
    if o != x {
      FiltersPick(forest, roots - {o}, x);
      FiltersPick(forest, roots - {x}, o);
      assert roots - {o} - {x} == roots - {x} - {o};
    }
  }

  lemma {:induction false} FiltersAlike(forest: Forest, other: Forest, roots: set<Operation>)
    requires forall o :: o in roots ==> FiltersAt(forest, o) == FiltersAt(other, o)
    ensures FiltersIn(forest, roots) == FiltersIn(other, roots)
  {
    if roots != {} {
      var o :| o in roots;
      FiltersPick(forest, roots, o);
      FiltersPick(other, roots, o);
      FiltersAlike(forest, other, roots - {o});
    }
  }

  lemma MergedValues(ops: map<string, Operation>, t1: string, t2: string, root: Operation)
    requires t1 in ops && t2 in ops
    ensures Merged(ops, ops[t1], ops[t2], root).Values == ops.Values - {ops[t1], ops[t2]} + {root}
  {
    var ops' := Merged(ops, ops[t1], ops[t2], root);
    assert ops'[t1] == root;
    forall o | o in ops.Values - {ops[t1], ops[t2]} ensures o in ops'.Values {
      var t :| t in ops && ops[t] == o;
      assert ops'[t] == o;
    }
  }

  lemma FiltersPickTwo(forest: Forest, roots: set<Operation>, o1: Operation, o2: Operation)
    requires o1 in roots && o2 in roots && o1 != o2
    ensures FiltersIn(forest, roots) == FiltersAt(forest, o1) + FiltersAt(forest, o2) + FiltersIn(forest, roots - {o1, o2})
  {
    FiltersPick(forest, roots, o1);
    FiltersPick(forest, roots - {o1}, o2);
    assert roots - {o1} - {o2} == roots - {o1, o2};
  }

  lemma FiltersReplace(forest: Forest, rest: set<Operation>, q: Plan)
    requires q.op !in rest
    ensures FiltersIn(forest[q.op := q], rest + {q.op}) == FiltersOf(q) + FiltersIn(forest, rest)
  {
    FiltersPick(forest[q.op := q], rest + {q.op}, q.op);
    assert rest + {q.op} - {q.op} == rest;
    FiltersAlike(forest[q.op := q], forest, rest);
  }

  /** A merge adds the filters on top of the new join to those of the forest and loses none. */
  lemma MergedFilters(ops: map<string, Operation>, forest: Forest, t1: string, t2: string, q: Plan,
                      added: multiset<Filter>)
    requires t1 in ops && t2 in ops && ops[t1] != ops[t2] && IsNew(q.op, ops)
    requires FiltersOf(q) == FiltersAt(forest, ops[t1]) + FiltersAt(forest, ops[t2]) + added
    ensures FiltersIn(forest[q.op := q], Merged(ops, ops[t1], ops[t2], q.op).Values) == FiltersIn(forest, ops.Values) + added
  {
    assert q.op !in ops.Values;
    FiltersPickTwo(forest, ops.Values, ops[t1], ops[t2]);
    MergedValues(ops, t1, t2, q.op);
    FiltersReplace(forest, ops.Values - {ops[t1], ops[t2]}, q);
  }

  /** The different operations of some tables. */
  ghost function Distinct(tables: seq<string>, ops: map<string, Operation>): set<Operation>
    requires forall t :: t in tables ==> t in ops
  {
    set t | t in tables :: ops[t]
  }

  /** Every merge leaves one different operation less. */
  lemma DistinctDrops(tables: seq<string>, ops: map<string, Operation>, t1: string, t2: string, root: Operation)
    requires (forall t :: t in tables ==> t in ops) && IsNew(root, ops)
    requires t1 in tables && t2 in tables && ops[t1] != ops[t2]
    ensures |Distinct(tables, Merged(ops, ops[t1], ops[t2], root))| == |Distinct(tables, ops)| - 1
  {
    var d, d' := Distinct(tables, ops), Distinct(tables, Merged(ops, ops[t1], ops[t2], root));
    assert d' == d - {ops[t1], ops[t2]} + {root} by {
      assert Merged(ops, ops[t1], ops[t2], root)[t1] == root;
      forall o | o in d - {ops[t1], ops[t2]} ensures o in d' {
        var t :| t in tables && ops[t] == o;
        assert Merged(ops, ops[t1], ops[t2], root)[t] == o;
      }
    }
    assert root !in d;
    assert {ops[t1], ops[t2]} <= d && |{ops[t1], ops[t2]}| == 2;
  }

  ghost function StartsOf(start: map<string, Operation>, ops: map<string, Operation>, root: Operation): set<Operation>
    requires ops.Keys == start.Keys
  {
    set t | t in ops && ops[t] == root :: start[t]
  }

  /** In a forest, the tree of a table holds each of the starting plans of its tables once and nothing else. */
  lemma TreeHoldsEachOnce(start: map<string, Operation>, ops: map<string, Operation>, forest: Forest,
                          root: Operation, joins: Kind)
    requires IsForest(start, ops, forest, joins) && root in ops.Values && root in forest
    ensures NoDuplicates(Starts(forest[root]))
    ensures forall x :: x in Starts(forest[root]) <==> x in StartsOf(start, ops, root)
  {
    var s, d := Starts(forest[root]), StartsOf(start, ops, root);
    var t0 :| t0 in ops && ops[t0] == root;
    assert IsTree(start, ops, ops[t0], forest, joins);
    forall x | x in s ensures x in d {
      var u :| u in start && start[u] == x;
      assert StartsUnder(start, u, ops[t0], forest);
    }
    forall x | x in d ensures x in s {
      var u :| u in ops && ops[u] == root && start[u] == x;
      assert StartsUnder(start, u, ops[t0], forest);
    }
  }
}
