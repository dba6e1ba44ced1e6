/** The planner's merging phases over its table-to-operation map. */
module JoinPlanning {
  import opened Expressions
  import opened Filters
  import opened Names
  import opened Plans
  import opened Sequences
  import opened Connectivity

  /** A forest whose filters are the charges of these expressions, each once. */
  ghost predicate Grown(start: map<string, Operation>, ops: map<string, Operation>, forest: Forest, joins: Kind,
                        charged: seq<Expression>)
  {
    IsForest(start, ops, forest, joins) && FiltersIn(forest, ops.Values) == multiset(Charges(charged))
  }

  /** The new tree holds the starting plans of its left and then of its right side. */
  ghost predicate SidesInOrder(before: Forest, after: Forest, left: Operation, right: Operation, root: Operation) {
    left in before && right in before && root in after && Starts(after[root]) == Starts(before[left]) + Starts(before[right])
  }

  lemma MergeGrows(start: map<string, Operation>, ops: map<string, Operation>, forest: Forest, joins: Kind,
                   charged: seq<Expression>,
                   t1: string, t2: string, q: Plan, taken: seq<Expression>)
    requires Grown(start, ops, forest, joins, charged)
    requires t1 in ops && t2 in ops && ops[t1] != ops[t2] && ops[t1] in forest && ops[t2] in forest
    requires IsNew(q.op, ops) && Built(q, joins) && Starts(q) == Starts(forest[ops[t1]]) + Starts(forest[ops[t2]])
    requires FiltersOf(q) == FiltersOf(forest[ops[t1]]) + FiltersOf(forest[ops[t2]]) + multiset(Charges(taken))
    ensures Grown(start, Merged(ops, ops[t1], ops[t2], q.op), forest[q.op := q], joins, charged + taken)
  {
    MergedForest(start, ops, forest, t1, t2, q, joins);
    MergedFilters(ops, forest, t1, t2, q, multiset(Charges(taken)));
    ChargesAppend(charged, taken);
  }

  lemma TakenStep(area: seq<Expression>, i: nat, used: set<nat>, call: Call)
    requires i < |area|
    ensures var e, rest := area[i], area[i + 1..];
            Taken(area[i..], used, call)
              == if e.id !in used && Qualifies(e, call) then [e] + Taken(rest, used + {e.id}, call) else Taken(rest, used, call)
  {
    assert area[i..][0] == area[i] && area[i..][1..] == area[i + 1..];
  }

  ghost function Marked(used: map<nat, bool>): set<nat> {
    set k | k in used && used[k]
  }

  lemma OneMoreDone(done: seq<Expression>, e: Expression, rest: seq<Expression>, used: map<nat, bool>)
    ensures done + ([e] + rest) == done + [e] + rest && Marked(used[e.id := true]) == Marked(used) + {e.id}
    ensures Charges(done + [e]) == Charges(done) + [FilterFor(e)] && Ids(done + [e]) == Ids(done) + {e.id}
  {
    assert e in done + [e];
  }

  ghost predicate MentionsTable(e: Expression, t: string) {
    exists v :: v in e.variables && v.table == t
  }

  /** Once two tables that started with different plans share an operation, every expression of the area
      that mentions both is used. */
  ghost predicate NothingMissed(start: map<string, Operation>, ops: map<string, Operation>, area: seq<Expression>,
                                used: set<nat>)
  {
    forall e, a, b {:trigger MentionsTable(e, a), MentionsTable(e, b)} ::
      e in area && MentionsTable(e, a) && MentionsTable(e, b) && NowJoined(start, ops, a, b) ==> e.id in used
  }

  ghost predicate NowJoined(start: map<string, Operation>, ops: map<string, Operation>, a: string, b: string) {
    a in start && b in start && a in ops && b in ops && start[a] != start[b] && ops[a] == ops[b]
  }

  /** One more request, for the tables of two operations. */
  ghost predicate IsExtendedBy(before: seq<Call>, after: seq<Call>, ops: map<string, Operation>, o1: Operation,
                               o2: Operation)
  {
    after != [] && after == before + [after[|after| - 1]] && IsCallFor(after[|after| - 1], ops, o1, o2)
  }

  ghost predicate IsCallFor(call: Call, ops: map<string, Operation>, o1: Operation, o2: Operation) {
    && (forall t :: t in call.0 <==> t in ops && ops[t] == o1)
    && forall t :: t in call.1 <==> t in ops && ops[t] == o2
  }

  lemma MergeMissesNothing(start: map<string, Operation>, ops: map<string, Operation>, area: seq<Expression>,
                           used: set<nat>,
                           o1: Operation, o2: Operation, node: Operation, call: Call)
    requires ops.Keys == start.Keys && NothingMissed(start, ops, area, used)
    requires IsNew(node, ops) && IsCallFor(call, ops, o1, o2)
    ensures NothingMissed(start, Merged(ops, o1, o2, node), area, used + Ids(Taken(area, used, call)))
  {
    var ops' := Merged(ops, o1, o2, node);
    TakenMissesNothing(area, used, call);
    forall e, a, b | e in area && MentionsTable(e, a) && MentionsTable(e, b) && NowJoined(start, ops', a, b)
      ensures e.id in used + Ids(Taken(area, used, call))
    {
      if ops[a] != ops[b] {
        assert ops[a] in {o1, o2} && ops[b] in {o1, o2};
        assert Qualifies(e, call);
      }
    }
  }

  lemma ChargesAppend(a: seq<Expression>, b: seq<Expression>)
    ensures multiset(Charges(a + b)) == multiset(Charges(a)) + multiset(Charges(b))
  {
    assert Charges(a + b) == Charges(a) + Charges(b);
  }

  lemma SuffixAppend(a: seq<Expression>, b: seq<Expression>, since: nat)
    requires since <= |a|
    ensures (a + b)[since..] == a[since..] + b
  {
  }

  class JoinPlanner {
    /** Keyed by the address of an expression; an absent key reads as false. */
    var usedExp: map<nat, bool>
    /** Tables without an operation are absent. */
    var tablesOperations: map<string, Operation>
    /** The (table, column) pairs for which the table has an index on that column alone. */
    const indexed: set<(string, string)>
    /** All requests for filters so far, and the expressions they took. */
    ghost var calls: seq<Call>
    ghost var charged: seq<Expression>

    constructor (ops: map<string, Operation>, indexed: set<(string, string)>)
      ensures tablesOperations == ops && this.indexed == indexed && calls == [] && forall area :: Accounts(area)
    {
      usedExp, tablesOperations, this.indexed := map[], ops, indexed;
      calls, charged := [], [];
    }

    ghost function Used(): set<nat>
      reads this
    {
      Marked(usedExp)
    }

    /** What was turned into filters is what the requests took, one after the other, from an area nothing
        of which was used before. */
    ghost predicate Accounts(area: seq<Expression>)
      reads this
    {
      charged == TakenByAll(area, {}, calls) && Used() == Ids(charged)
    }

    /** So over whole phases no expression is charged twice, nor more operations than the area holds. */
    lemma ChargedOnce(area: seq<Expression>)
      requires Accounts(area)
      ensures DistinctIds(charged) && forall e :: e in charged ==> e in area
      ensures DistinctIds(area) ==> Operations(charged) <= Operations(area)
    {
      TakenAtMostOnce(area, {}, calls);
      if DistinctIds(area) { ChargesBounded(area, calls); }
    }

    static method HasFromTables(e: Expression, tables: seq<string>) returns (has: bool)
      ensures has <==> FromTables(e, tables)
    {
      if |tables| == 0 {
        return true;
      }
      for i := 0 to |e.variables|
        invariant forall v :: v in e.variables[..i] ==> v.table !in tables
      {
        for j := 0 to |tables|
          invariant e.variables[i].table !in tables[..j]
        {
          if tables[j] == e.variables[i].table {
            return true;
          }
        }
      }
      return false;
    }

    /** The filters for the unused expressions of the area that mention both sides; marks them used. */
    method NumOfFilter(tables1: seq<string>, tables2: seq<string>, area: seq<Expression>) returns (res: seq<Filter>)
      requires Accounts(area)
      modifies this`usedExp, this`calls, this`charged
      ensures Accounts(area) && calls == old(calls) + [(tables1, tables2)]
      ensures var taken := Taken(area, old(Used()), (tables1, tables2));
              && charged == old(charged) + taken && res == Charges(taken)
              && (forall i :: 0 <= i < |taken| ==>
                    (res[i].isEqual <==> taken[i].equal == 1) && res[i].numOfOperations == taken[i].oper)
              && forall e :: e in taken ==>
                   && e in area && e.id !in old(Used())
                   && (tables1 == [] || exists v :: v in e.variables && v.table in tables1)
                   && (tables2 == [] || exists v :: v in e.variables && v.table in tables2)
      ensures forall e :: e in area && e.id !in Used() ==>
        || (tables1 != [] && forall v :: v in e.variables ==> v.table !in tables1)
        || (tables2 != [] && forall v :: v in e.variables ==> v.table !in tables2)
    {
      TakenFresh(area, Used(), (tables1, tables2));
      TakenMissesNothing(area, Used(), (tables1, tables2));
      res := CollectFilters(tables1, tables2, area);
      TakenOneMore(area, {}, calls, (tables1, tables2));
      assert {} + Ids(charged) == old(Used());
      ghost var taken := Taken(area, old(Used()), (tables1, tables2));
      calls, charged := calls + [(tables1, tables2)], charged + taken;
      assert Ids(charged) == old(Used()) + Ids(taken);
    }

    /** Whether an expression is unused and mentions both sides. */
    method Takes(e: Expression, tables1: seq<string>, tables2: seq<string>) returns (takes: bool)
      ensures takes <==> e.id !in Used() && Qualifies(e, (tables1, tables2))
    {
      if e.id in usedExp && usedExp[e.id] {
        return false;
      }
      var has1 := HasFromTables(e, tables1);
      var has2 := HasFromTables(e, tables2);
      return has1 && has2;
    }

    method CollectFilters(tables1: seq<string>, tables2: seq<string>, area: seq<Expression>) returns (res: seq<Filter>)
      modifies this`usedExp
      ensures var taken := Taken(area, old(Used()), (tables1, tables2));
              res == Charges(taken) && Used() == old(Used()) + Ids(taken)
    {
      res := [];
      ghost var call := (tables1, tables2);
      ghost var done: seq<Expression> := [];
      for i := 0 to |area|
        invariant done + Taken(area[i..], Used(), call) == Taken(area, old(Used()), call)
        invariant res == Charges(done)
        invariant Used() == old(Used()) + Ids(done)
      {
        var e := area[i];
        TakenStep(area, i, Used(), call);
        var takes := Takes(e, tables1, tables2);
        if takes {
          OneMoreDone(done, e, Taken(area[i + 1..], Used() + {e.id}, call), usedExp);
          usedExp := usedExp[e.id := true];
          res := res + [FilterFor(e)];
          done := done + [e];
        }
      }
      assert area[|area|..] == [];
    }

    /** Puts one filter per entry on top of `node`, the first entry lowest. */
    static method AddFilters(op: Operation, list: seq<Filter>, ghost p: Plan, ghost joins: Kind)
      returns (node: Operation, ghost q: Plan)
      requires p.op == op && Built(p, joins)
      ensures Stacked(q, p, list) && q.op == node
      ensures Built(q, joins) && Starts(q) == Starts(p) && FiltersOf(q) == FiltersOf(p) + multiset(list)
      ensures node == op || fresh(node)
    {
      node, q := op, p;
      for i := 0 to |list|
        invariant Stacked(q, p, list[..i]) && q.op == node
        invariant node == op || fresh(node)
      {
        node := new Operation(FilterOn(list[i]), [node]);
        q := Filtered(node, q);
        assert list[..i + 1][..i] == list[..i];
      }
      assert list[..|list|] == list;
      StackedKeeps(q, p, list, joins);
    }

    method SetNewOperation(from: Operation, to: Operation)
      modifies this`tablesOperations
      ensures tablesOperations == Redirect(old(tablesOperations), from, to)
    {
      var rest := tablesOperations.Keys;
      while rest != {}
        invariant rest <= tablesOperations.Keys == old(tablesOperations).Keys
        invariant forall t :: t in rest ==> tablesOperations[t] == old(tablesOperations)[t]
        invariant forall t :: t in tablesOperations.Keys - rest ==>
          tablesOperations[t] == Redirect(old(tablesOperations), from, to)[t]
      {
        ghost var first := FirstExists(rest);
        var t :| t in rest && forall u :: u in rest ==> Leq(t, u);
        if from == tablesOperations[t] {
          tablesOperations := tablesOperations[t := to];
        }
        rest := rest - {t};
      }
    }

    /** The tables that share an operation, in name order. */
    method GetTables(operation: Operation) returns (tables: seq<string>)
      ensures forall t :: t in tables <==> t in tablesOperations && tablesOperations[t] == operation
      ensures NoDuplicates(tables) && forall i, j :: 0 <= i < j < |tables| ==> Leq(tables[i], tables[j])
    {
      tables := [];
      var rest := tablesOperations.Keys;
      while rest != {}
        invariant rest <= tablesOperations.Keys
        invariant forall t :: t in tables <==> t in tablesOperations.Keys - rest && tablesOperations[t] == operation
        invariant NoDuplicates(tables) && forall i, j :: 0 <= i < j < |tables| ==> Leq(tables[i], tables[j])
        invariant forall x, y :: x in tables && y in rest ==> Leq(x, y)
      {
        ghost var first := FirstExists(rest);
        var t :| t in rest && forall u :: u in rest ==> Leq(t, u);
        if tablesOperations[t] == operation {
          tables := tables + [t];
        }
        rest := rest - {t};
      }
    }

    /** One join: a new operator over the operations of two tables, with the filters that mention both
        sides on top, becomes the operation of every table on either side. */
    method JoinTables(t1: string, t2: string, kind: Kind, area: seq<Expression>, ghost p1: Plan, ghost p2: Plan)
      returns (node: Operation, ghost q: Plan)
      requires t1 in tablesOperations && t2 in tablesOperations && tablesOperations[t1] != tablesOperations[t2]
      requires Built(p1, kind) && p1.op == tablesOperations[t1] && Built(p2, kind) && p2.op == tablesOperations[t2]
      requires Accounts(area)
      modifies this
      ensures fresh(node) && q.op == node && Built(q, kind) && Starts(q) == Starts(p1) + Starts(p2)
      ensures tablesOperations == Merged(old(tablesOperations), p1.op, p2.op, node)
      ensures Accounts(area) && IsExtendedBy(old(calls), calls, old(tablesOperations), p1.op, p2.op)
      ensures var taken := Taken(area, old(Used()), calls[|calls| - 1]);
              && charged == old(charged) + taken
              && FiltersOf(q) == FiltersOf(p1) + FiltersOf(p2) + multiset(Charges(taken))
              && exists join: Operation ::
                   join.kind == kind && join.children == [p1.op, p2.op] && Stacked(q, Joined(join, p1, p2), Charges(taken))
    {
      ghost var before := tablesOperations;
      var op1, op2 := tablesOperations[t1], tablesOperations[t2];
      var join := new Operation(kind, [op1, op2]);
      var tables1 := GetTables(op1);
      var tables2 := GetTables(op2);
      assert IsCallFor((tables1, tables2), before, op1, op2);
      SetNewOperation(op1, join);
      SetNewOperation(tablesOperations[t2], join);
      var list := NumOfFilter(tables1, tables2, area);
      assert calls[|calls| - 1] == (tables1, tables2);
      node, q := AddFilters(join, list, Joined(join, p1, p2), kind);
      SetNewOperation(join, node);
      RedirectsMerge(before, op1, op2, join, node);
    }

    /** The forest over the plans a phase started with, of the expressions charged since then; no
        expression was missed. */
    ghost predicate Planned(start: map<string, Operation>, forest: Forest, joins: Kind, since: nat,
                            area: seq<Expression>)
      reads this
    {
      && Accounts(area) && since <= |charged| && Grown(start, tablesOperations, forest, joins, charged[since..])
      && NothingMissed(start, tablesOperations, area, Used())
    }

    /** The filters in the trees carry exactly the operations charged in the phase, hence at most those of
        the area. */
    lemma PlannedCarry(start: map<string, Operation>, forest: Forest, joins: Kind, since: nat, area: seq<Expression>)
      requires Planned(start, forest, joins, since, area)
      ensures OperationsOf(FiltersIn(forest, tablesOperations.Values)) == Operations(charged[since..])
      ensures DistinctIds(area) ==> OperationsOf(FiltersIn(forest, tablesOperations.Values)) <= Operations(area)
    {
      ChargesCarry(charged[since..]);
      ChargedOnce(area);
      assert charged == charged[..since] + charged[since..];
      OperationsAppend(charged[..since], charged[since..]);
    }

    /** Joins the operations of two tables, in the forest too. */
    method JoinInForest(t1: string, t2: string, kind: Kind, area: seq<Expression>,
                        ghost start: map<string, Operation>, ghost forest: Forest, ghost since: nat)
      returns (ghost forest': Forest, ghost node: Operation)
      requires t1 in tablesOperations && t2 in tablesOperations && tablesOperations[t1] != tablesOperations[t2]
      requires Planned(start, forest, kind, since, area)
      modifies this
      ensures Planned(start, forest', kind, since, area) && fresh(node)
      ensures IsExtendedBy(old(calls), calls, old(tablesOperations), old(tablesOperations[t1]), old(tablesOperations[t2]))
      ensures tablesOperations == Merged(old(tablesOperations), old(tablesOperations[t1]), old(tablesOperations[t2]), node)
      ensures SidesInOrder(forest, forest', old(tablesOperations[t1]), old(tablesOperations[t2]), node)
    {
      ghost var ops, before := tablesOperations, charged;
      assert IsTree(start, ops, ops[t1], forest, kind) && IsTree(start, ops, ops[t2], forest, kind);
      var root;
      ghost var q;
      root, q := JoinTables(t1, t2, kind, area, forest[ops[t1]], forest[ops[t2]]);
      ghost var taken := Taken(area, Ids(before), calls[|calls| - 1]);
      MergeGrows(start, ops, forest, kind, before[since..], t1, t2, q, taken);
      SuffixAppend(before, taken, since);
      MergeMissesNothing(start, ops, area, Ids(before), ops[t1], ops[t2], root, calls[|calls| - 1]);
      assert Ids(before + taken) == Ids(before) + Ids(taken);
      return forest[root := q], root;
    }

    /** An eligible equality between two tables with different operations joins the operations. */
    method HashJoinFor(exp: Expression, area: seq<Expression>, ghost pr: Problem, ghost forest: Forest,
                       ghost since: nat)
      returns (ghost forest': Forest)
      requires pr.area == area && pr.indexed == indexed && exp in area
      requires Planned(pr.start, forest, HashJoin(false), since, area) && pr.Sound(tablesOperations)
      modifies this
      ensures Planned(pr.start, forest', HashJoin(false), since, area) && pr.Sound(tablesOperations)
      ensures pr.Coarser(old(tablesOperations), tablesOperations)
      ensures pr.Eligible(exp) ==> pr.Agree(tablesOperations, exp)
      ensures if && exp.equal == 1 && |exp.variables| == 2
                 && (exp.variables[0].table, exp.variables[0].name) in indexed
                 && (exp.variables[1].table, exp.variables[1].name) in indexed
                 && exp.variables[0].table in old(tablesOperations) && exp.variables[1].table in old(tablesOperations)
                 && old(tablesOperations)[exp.variables[0].table] != old(tablesOperations)[exp.variables[1].table]
        then var o1, o2 := old(tablesOperations)[exp.variables[0].table], old(tablesOperations)[exp.variables[1].table];
             exists node ::
               tablesOperations == Merged(old(tablesOperations), o1, o2, node) && SidesInOrder(forest, forest', o1, o2, node)
        else unchanged(this) && forest' == forest
    {
      if exp.equal == 1 && |exp.variables| == 2 {
        var v1, v2 := exp.variables[0], exp.variables[1];
        var t1, t2 := v1.table, v2.table;
        if t1 in tablesOperations && t2 in tablesOperations && tablesOperations[t2] != tablesOperations[t1]
           && (t1, v1.name) in indexed && (t2, v2.name) in indexed
        {
          assert pr.Link(t1, t2) by { assert pr.Equates(exp, t1, t2); }
          ghost var node;
          forest', node := JoinInForest(t1, t2, HashJoin(false), area, pr.start, forest, since);
          pr.MergeSound(old(tablesOperations), t1, t2, node);
          return;
        }
      }
      return forest;
    }

    /** One pass over the area settles every eligible equality, and a pass over a settled map changes nothing. */
    method HashJoinRound(area: seq<Expression>, ghost pr: Problem, ghost forest: Forest, ghost since: nat)
      returns (ghost forest': Forest)
      requires pr.area == area && pr.indexed == indexed
      requires Planned(pr.start, forest, HashJoin(false), since, area) && pr.Sound(tablesOperations)
      modifies this
      ensures Planned(pr.start, forest', HashJoin(false), since, area) && pr.Sound(tablesOperations)
      ensures pr.Coarser(old(tablesOperations), tablesOperations)
      ensures pr.Settled(tablesOperations, area)
      ensures old(pr.Settled(tablesOperations, area)) ==> unchanged(this) && forest' == forest
    {
      forest' := forest;
      ghost var settled := pr.Settled(tablesOperations, area);
      for i := 0 to |area|
        invariant Planned(pr.start, forest', HashJoin(false), since, area) && pr.Sound(tablesOperations)
        invariant pr.Coarser(old(tablesOperations), tablesOperations)
        invariant pr.Settled(tablesOperations, area[..i])
        invariant settled ==> unchanged(this) && forest' == forest
      {
        ghost var ops := tablesOperations;
        assert settled && pr.Eligible(area[i]) ==> pr.Agree(old(tablesOperations), area[i]);
        forest' := HashJoinFor(area[i], area, pr, forest', since);
        pr.Step(old(tablesOperations), ops, tablesOperations, i);
      }
      assert area[..|area|] == area;
    }

    /** The merge loop of ten rounds; `rounds` holds the map before the first and after each of them. The
        first one settles every equality and the others change nothing. */
    method MergeIntoHashJoins(area: seq<Expression>) returns (ghost forest: Forest,
                              ghost rounds: seq<map<string, Operation>>)
      requires Accounts(area)
      modifies this
      ensures Planned(old(tablesOperations), forest, HashJoin(false), old(|charged|), area)
      ensures OperationsOf(FiltersIn(forest, tablesOperations.Values)) == Operations(charged[old(|charged|)..])
      ensures var pr := Problem(old(tablesOperations), area, indexed);
              forall a, b :: a in pr.start && b in pr.start ==>
                a in tablesOperations && b in tablesOperations &&
                (tablesOperations[a] == tablesOperations[b] <==> pr.Connected(a, b))
      ensures |rounds| == 11 && rounds[0] == old(tablesOperations) && rounds[10] == tablesOperations
      ensures forall k :: 1 <= k <= 10 ==> rounds[k] == rounds[1]
    {
      ghost var pr := Problem(tablesOperations, area, indexed);
      forest := PlanNothing(HashJoin(false), area);
      pr.StartSound();
      rounds := [tablesOperations];
      for k := 0 to 10
        invariant Planned(pr.start, forest, HashJoin(false), old(|charged|), area) && pr.Sound(tablesOperations)
        invariant pr.Coarser(pr.start, tablesOperations)
        invariant k > 0 ==> pr.Settled(tablesOperations, area)
        invariant |rounds| == k + 1 && rounds[0] == pr.start && rounds[k] == tablesOperations
        invariant forall j :: 1 <= j <= k ==> rounds[j] == rounds[1]
      {
        forest := HashJoinRound(area, pr, forest, old(|charged|));
        rounds := rounds + [tablesOperations];
      }
      pr.SharesIffConnected(tablesOperations);
      PlannedCarry(pr.start, forest, HashJoin(false), old(|charged|), area);
    }

    /** A phase starts with every plan a tree of its own. */
    lemma PlanNothing(joins: Kind, area: seq<Expression>) returns (forest: Forest)
      requires Accounts(area)
      ensures Planned(tablesOperations, forest, joins, |charged|, area)
    {
      forest := Singletons(tablesOperations);
      SingletonsForest(tablesOperations, joins);
      SingletonsHaveNoFilters(tablesOperations, tablesOperations.Values);
      assert Charges(charged[|charged|..]) == [];
    }

    /** One pass of the last phase: joins the first table's operation with the first different one, if any. */
    method JoinFirstDifferent(tables: seq<string>, area: seq<Expression>, ghost start: map<string, Operation>,
                              ghost forest: Forest, ghost since: nat)
      returns (ghost forest': Forest, ghost joined: nat, ghost node: Operation)
      requires tables != [] && forall t :: t in tables ==> t in tablesOperations
      requires Planned(start, forest, NestedJoin(false), since, area)
      modifies this
      ensures Planned(start, forest', NestedJoin(false), since, area)
      ensures joined <= |tables|
      ensures forall t :: t in tables[..joined] ==> old(tablesOperations)[t] == old(tablesOperations)[tables[0]]
      ensures joined == |tables| ==> tablesOperations == old(tablesOperations)
      ensures joined < |tables| ==>
        var o1, o2 := old(tablesOperations)[tables[0]], old(tablesOperations)[tables[joined]];
        && o1 != o2 && fresh(node) && tablesOperations == Merged(old(tablesOperations), o1, o2, node)
        && SidesInOrder(forest, forest', o1, o2, node)
    {
      var first := tables[0];
      var pointer := tablesOperations[first];
      ghost var ops := tablesOperations;
      node := pointer;
      for i := 0 to |tables|
        invariant unchanged(this) && forall t :: t in tables[..i] ==> ops[t] == pointer
      {
        if tablesOperations[tables[i]] != pointer {
          forest', node := JoinInForest(first, tables[i], NestedJoin(false), area, start, forest, since);
          return forest', i, node;
        }
      }
      return forest, |tables|, node;
    }

    method AllSame(tables: seq<string>) returns (done: bool)
      requires tables != [] && forall t :: t in tables ==> t in tablesOperations
      ensures done <==> forall t :: t in tables ==> tablesOperations[t] == tablesOperations[tables[0]]
    {
      done := true;
      var pointer := tablesOperations[tables[0]];
      for i := 0 to |tables|
        invariant done <==> forall t :: t in tables[..i] ==> tablesOperations[t] == pointer
      {
        if pointer != tablesOperations[tables[i]] {
          done := false;
        }
      }
      assert tables[..|tables|] == tables;
    }

    /** The last phase: nested joins until all tables of the query have the same operation, the root.
        Every operation the tables had before is below the root exactly once. */
    method JoinAll(tables: seq<string>, area: seq<Expression>) returns (root: Operation, ghost forest: Forest)
      requires tables != [] && forall t :: t in tables ==> t in tablesOperations
      requires Accounts(area)
      modifies this
      ensures forall t :: t in tables ==> t in tablesOperations && tablesOperations[t] == root
      ensures Planned(old(tablesOperations), forest, NestedJoin(false), old(|charged|), area)
      ensures OperationsOf(FiltersIn(forest, tablesOperations.Values)) == Operations(charged[old(|charged|)..])
      ensures root in forest && forest[root].op == root && Built(forest[root], NestedJoin(false))
      ensures tablesOperations.Keys == old(tablesOperations).Keys
      ensures NoDuplicates(Starts(forest[root]))
      ensures forall x :: x in Starts(forest[root]) <==> x in StartsOf(old(tablesOperations), tablesOperations, root)
    {
      ghost var start := tablesOperations;
      forest := PlanNothing(NestedJoin(false), area);
      while true
        invariant Planned(start, forest, NestedJoin(false), old(|charged|), area)
        decreases |Distinct(tables, tablesOperations)|
      {
        var first := tables[0];
        ghost var ops, joined, node := tablesOperations, |tables|, tablesOperations[first];
        forest, joined, node := JoinFirstDifferent(tables, area, start, forest, old(|charged|));
        var done := AllSame(tables);
        if done {
          root := tablesOperations[first];
          break;
        }
        assert tables[..|tables|] == tables;
        DistinctDrops(tables, ops, first, tables[joined], node);
      }
      assert IsTree(start, tablesOperations, tablesOperations[tables[0]], forest, NestedJoin(false));
      TreeHoldsEachOnce(start, tablesOperations, forest, root, NestedJoin(false));
      PlannedCarry(start, forest, NestedJoin(false), old(|charged|), area);
    }
  }
}
