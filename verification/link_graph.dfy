/** Directed links between tables: cycles, and the orders that respect the links. */
module LinkGraph {
  import opened Names
  import opened Sequences

  /** For every table the tables it must come after. */
  type Predecessors = map<string, set<string>>

  ghost predicate IsLink(g: Predecessors, from: string, to: string) {
    to in g && from in g[to]
  }

  /** A chain of links that ends where it began. */
  ghost predicate IsCycle(g: Predecessors, c: seq<string>) {
    |c| > 1 && c[0] == c[|c| - 1] && forall i :: 0 < i < |c| ==> IsLink(g, c[i - 1], c[i])
  }

  ghost predicate Cyclic(g: Predecessors) {
    exists c :: IsCycle(g, c)
  }

  /** Every table of the order comes after all its predecessors. */
  ghost predicate Topological(g: Predecessors, order: seq<string>) {
    forall i :: 0 <= i < |order| ==> order[i] in g && forall p :: p in g[order[i]] ==> p in order[..i]
  }

  /** A table not in the list whose predecessors all are. */
  ghost predicate IsReady(g: Predecessors, before: seq<string>, t: string) {
    t in g && t !in before && forall p :: p in g[t] ==> p in before
  }

  ghost predicate IsFirstReady(g: Predecessors, before: seq<string>, t: string) {
    IsReady(g, before, t) && forall u :: IsReady(g, before, u) ==> Leq(t, u)
  }

  /** Every table of the order was the first by name that could come next. */
  ghost predicate Greedy(g: Predecessors, order: seq<string>) {
    forall i {:trigger order[i]} :: 0 <= i < |order| ==> IsFirstReady(g, order[..i], order[i])
  }

  lemma GreedyOneMore(g: Predecessors, order: seq<string>, t: string)
    requires Greedy(g, order) && IsFirstReady(g, order, t)
    ensures Greedy(g, order + [t])
  {
    forall i | 0 <= i < |order + [t]| ensures IsFirstReady(g, (order + [t])[..i], (order + [t])[i]) {
      assert (order + [t])[..i] == order[..i];
      if i == |order| { assert order[..i] == order; }
    }
  }

  lemma GreedyIsTopological(g: Predecessors, order: seq<string>)
    requires Greedy(g, order)
    ensures Topological(g, order)
  {
    forall i | 0 <= i < |order| ensures order[i] in g && forall p :: p in g[order[i]] ==> p in order[..i] {
      assert IsFirstReady(g, order[..i], order[i]);
    }
  }

  /** The order lists exactly these tables, each once. */
  ghost predicate Lists(order: seq<string>, tables: set<string>) {
    NoDuplicates(order) && forall t :: t in order <==> t in tables
  }

  lemma ListsOneMore(order: seq<string>, tables: set<string>, t: string)
    requires Lists(order, tables) && t !in tables
    ensures Lists(order + [t], tables + {t})
  {
    forall i, j | 0 <= i < j < |order + [t]| ensures (order + [t])[i] != (order + [t])[j] {
      if j == |order| { assert order[i] in order; }
    }
  }

  ghost predicate Waits(g: Predecessors, t: string, others: set<string>) {
    t in g && exists p :: p in g[t] && p in others
  }

  /** Every table of the set comes after another one of the set. */
  ghost predicate Stuck(g: Predecessors, tables: set<string>) {
    tables != {} && forall t {:trigger Waits(g, t, tables)} :: t in tables ==> Waits(g, t, tables)
  }

  /** Walking backwards through tables that all have a predecessor among themselves never ends. */
  lemma {:induction false} BackwardWalk(g: Predecessors, stuck: set<string>, n: nat) returns (w: seq<string>)
    requires Stuck(g, stuck)
    ensures |w| == n + 1 && (forall i :: 0 <= i < |w| ==> w[i] in stuck)
    ensures forall i :: 0 < i < |w| ==> IsLink(g, w[i - 1], w[i])
  {
    if n == 0 {
      var t :| t in stuck;
      w := [t];
    } else {
      var v := BackwardWalk(g, stuck, n - 1);
      assert Waits(g, v[0], stuck);
      var p :| p in g[v[0]] && p in stuck;
      w := [p] + v;
      forall i | 0 < i < |w| ensures IsLink(g, w[i - 1], w[i]) {
        if i > 1 { assert IsLink(g, v[i - 2], v[i - 1]); }
      }
    }
  }

  /** More positions than values: some value is repeated. */
  lemma {:induction false} Pigeonhole(w: seq<string>, values: set<string>) returns (i: nat, j: nat)
    requires |w| > |values| && forall k :: 0 <= k < |w| ==> w[k] in values
    ensures i < j < |w| && w[i] == w[j]
    decreases |w|
  {
    var last := w[|w| - 1];
    if k :| 0 <= k < |w| - 1 && w[k] == last {
      i, j := k, |w| - 1;
    } else {
      i, j := Pigeonhole(w[..|w| - 1], values - {last});
    }
  }

  lemma StuckIsCyclic(g: Predecessors, stuck: set<string>)
    requires Stuck(g, stuck)
    ensures Cyclic(g)
  {
    var w := BackwardWalk(g, stuck, |stuck|);
    var i, j := Pigeonhole(w, stuck);
    var c := w[i..j + 1];
    assert IsCycle(g, c) by {
      forall k | 0 < k < |c| ensures IsLink(g, c[k - 1], c[k]) {
        assert IsLink(g, w[i + k - 1], w[i + k]);
      }
    }
  }

  /** Along a topological order positions grow with every link. */
  lemma {:induction false} PositionsGrow(g: Predecessors, order: seq<string>, c: seq<string>, k: nat,
                                         at: nat) returns (first: nat)
    requires Topological(g, order) && NoDuplicates(order)
    requires k < |c| && (forall i :: 0 < i < |c| ==> IsLink(g, c[i - 1], c[i]))
    requires at < |order| && order[at] == c[k]
    ensures first <= at && order[first] == c[0] && (k > 0 ==> first < at)
  {
    if k == 0 {
      first := at;
    } else {
      assert IsLink(g, c[k - 1], c[k]);
      var before :| 0 <= before < at && order[before] == c[k - 1];
      first := PositionsGrow(g, order, c, k - 1, before);
    }
  }

  /** A topological order of all tables excludes cycles. */
  lemma TopologicalIsAcyclic(g: Predecessors, order: seq<string>)
    requires Topological(g, order) && Lists(order, g.Keys)
    ensures !Cyclic(g)
  {
    if c :| IsCycle(g, c) {
      assert IsLink(g, c[|c| - 2], c[|c| - 1]);
      var at :| 0 <= at < |order| && order[at] == c[|c| - 1];
      var first := PositionsGrow(g, order, c, |c| - 1, at);
      assert false;
    }
  }
}
