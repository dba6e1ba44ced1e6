/** The parser's condition tree as linked objects, and the planner's passes over it. */
module ConditionTree {
  import opened Expressions
  import opened Conditions
  import opened Areas

  const AND_STR := "AND"
  const OR_STR := "OR"
  const NOT_STR := "NOT"

  class ExpressionInfo {
    const id: nat
    var equal: CompareClass
    const oper: nat
    const variables: seq<Variable>

    constructor (id: nat, equal: CompareClass, oper: nat, variables: seq<Variable>)
      ensures Value() == Expression(id, equal, oper, variables)
    {
      this.id, this.equal, this.oper, this.variables := id, equal, oper, variables;
    }

    function Value(): Expression
      reads this
    {
      Expression(id, equal, oper, variables)
    }
  }

  class TreeNode {
    var terminal: bool
    var name: string
    var e1: ExpressionInfo?
    var left: TreeNode?
    var right: TreeNode?

    constructor ()
      ensures !terminal && name == "" && e1 == null && left == null && right == null
    {
      terminal, name, e1, left, right := false, "", null, null, null;
    }
  }

  /** The well-formed tree some linked nodes form: AND and OR have two children, NOT a left child only,
      leaves are marked terminal and hold an expression of the given class. */
  datatype Shape =
    | LeafAt(node: TreeNode, e: ExpressionInfo, equal: CompareClass)
    | PairAt(node: TreeNode, isAnd: bool, left: Shape, right: Shape)
    | NotAt(node: TreeNode, child: Shape)

  ghost function Footprint(s: Shape): set<object> {
    match s
    case LeafAt(n, e, _) => {n, e}
    case PairAt(n, _, l, r) => {n} + Footprint(l) + Footprint(r)
    case NotAt(n, c) => {n} + Footprint(c)
  }

  /** Decreases along the rewriting, although NOT over a pair becomes two NOTs. */
  ghost function Weight(s: Shape): nat
    ensures Weight(s) > 0
  {
    match s
    case LeafAt(_, _, _) => 1
    case PairAt(_, _, l, r) => 1 + Weight(l) + Weight(r)
    case NotAt(_, c) => 2 * Weight(c)
  }

  /** No object occurs at two places of the tree. */
  ghost predicate Separate(s: Shape) {
    match s
    case LeafAt(_, _, _) => true
    case PairAt(n, _, l, r) =>
      Separate(l) && Separate(r) && Footprint(l) !! Footprint(r) && n !in Footprint(l) && n !in Footprint(r)
    case NotAt(n, c) => Separate(c) && n !in Footprint(c)
  }

  ghost predicate Linked(s: Shape)
    reads Footprint(s)
  {
    match s
    case LeafAt(n, e, k) => n.terminal && n.e1 == e && e.equal == k
    case PairAt(n, isAnd, l, r) =>
      !n.terminal && n.name == (if isAnd then AND_STR else OR_STR) &&
      n.left == l.node && n.right == r.node && Linked(l) && Linked(r)
    case NotAt(n, c) =>
      !n.terminal && n.name == NOT_STR && n.left == c.node && n.right == null && Linked(c)
  }

  ghost predicate Tree(root: TreeNode, s: Shape)
    reads Footprint(s)
  {
    s.node == root && Separate(s) && Linked(s)
  }

  ghost function Abs(s: Shape): Cond {
    match s
    case LeafAt(_, e, k) => Leaf(Expression(e.id, k, e.oper, e.variables))
    case PairAt(_, isAnd, l, r) => if isAnd then And(Abs(l), Abs(r)) else Or(Abs(l), Abs(r))
    case NotAt(_, c) => Not(Abs(c))
  }

  /** What a tree that exists refers to exists too, so creating new objects does not touch it. */
  lemma {:induction false} FootprintAllocated(s: Shape)
    ensures forall o :: o in Footprint(s) ==> allocated(o)
  {
    match s
    case LeafAt(_, _, _) =>
    case PairAt(_, _, l, r) => FootprintAllocated(l); FootprintAllocated(r);
    case NotAt(_, c) => FootprintAllocated(c);
  }

  /** NOT over a pair, as the pair of the other kind over two new NOTs. */
  ghost function NegatedPair(s: Shape, n: TreeNode, not1: TreeNode, not2: TreeNode): (u: Shape)
    requires s.NotAt? && s.child.PairAt? && Separate(s)
    requires n != not1 && n != not2 && not1 != not2 && {n, not1, not2} !! Footprint(s)
    ensures u.node == n && u.PairAt? && Separate(u) && Weight(u) < Weight(s)
    ensures Footprint(u) <= {n, not1, not2} + Footprint(s)
    ensures PushNot(Abs(u), false) == PushNot(Abs(s), false)
  {
    assert Separate(s.child);
    assert Footprint(s) == {s.node} + Footprint(s.child);
    assert Weight(s) == 2 * Weight(s.child);
    PairAt(n, !s.child.isAnd, NotAt(not1, s.child.left), NotAt(not2, s.child.right))
  }

  ghost function TablesOf(variables: seq<Variable>, known: set<string>): set<string> {
    set v | v in variables && v.table in known :: v.table
  }

  ghost function TablesIn(c: Cond, known: set<string>): set<string> {
    set e, v | e in Leaves(c) && v in e.variables && v.table in known :: v.table
  }

  class Select {
    var orNode: nat
    var tablesSet: set<string>

    constructor ()
      ensures orNode == 0 && tablesSet == {}
    {
      orNode, tablesSet := 0, {};
    }

    method NewInner(name: string, left: TreeNode?, right: TreeNode?) returns (n: TreeNode)
      ensures fresh(n) && !n.terminal && n.name == name && n.left == left && n.right == right
    {
      n := new TreeNode();
      n.left := left;
      n.right := right;
      n.name := name;
    }

    /** NOT over AND or OR: a new node of the other kind over two new NOTs. */
    method NegatePair(root: TreeNode, ghost s: Shape) returns (n: TreeNode, ghost u: Shape)
      requires Tree(root, s) && s.NotAt? && s.child.PairAt?
      ensures Tree(n, u) && u.PairAt? && Weight(u) < Weight(s)
      ensures forall o :: o in Footprint(u) && o !in Footprint(s) ==> fresh(o)
      ensures PushNot(Abs(u), false) == PushNot(Abs(s), false)
    {
      ghost var l, r := s.child.left, s.child.right;
      assert Tree(root.left, s.child);
      assert Tree(root.left.left, l) && Tree(root.left.right, r);
      FootprintAllocated(s);
      var not1 := NewInner(NOT_STR, root.left.left, null);
      var not2 := NewInner(NOT_STR, root.left.right, null);
      n := NewInner(if root.left.name == OR_STR then AND_STR else OR_STR, not1, not2);
      u := NegatedPair(s, n, not1, not2);
      assert Linked(u.left) && Linked(u.right);
    }

    /** AND or OR: the children are rewritten, the node stays. */
    method RewritePair(root: TreeNode, ghost s: Shape) returns (n: TreeNode, ghost t: Shape)
      requires Tree(root, s) && s.PairAt?
      modifies Footprint(s)
      ensures Tree(n, t) && (forall o :: o in Footprint(t) && o !in Footprint(s) ==> fresh(o))
      ensures Abs(t) == PushNot(Abs(s), false)
      decreases Weight(s), 0
    {
      ghost var t1 := RewriteLeft(root, s);
      ghost var t2 := RewriteRight(root, t1);
      return root, t2;
    }

    method RewriteLeft(root: TreeNode, ghost s: Shape) returns (ghost t: Shape)
      requires Tree(root, s) && s.PairAt?
      modifies {root} + Footprint(s.left)
      ensures t.PairAt? && t.isAnd == s.isAnd && t.right == s.right && Abs(t.left) == PushNot(Abs(s.left), false)
      ensures Tree(root, t) && forall o :: o in Footprint(t) && o !in Footprint(s) ==> fresh(o)
      decreases Weight(s.left), 2
    {
      assert Tree(root.left, s.left) && Tree(root.right, s.right);
      FootprintAllocated(s.right);
      var n1, t1 := DeMorgan(root.left, s.left);
      if root.left != n1 {
        root.left := n1;
      }
      t := s.(left := t1);
    }

    method RewriteRight(root: TreeNode, ghost s: Shape) returns (ghost t: Shape)
      requires Tree(root, s) && s.PairAt?
      modifies {root} + Footprint(s.right)
      ensures t.PairAt? && t.isAnd == s.isAnd && t.left == s.left && Abs(t.right) == PushNot(Abs(s.right), false)
      ensures Tree(root, t) && forall o :: o in Footprint(t) && o !in Footprint(s) ==> fresh(o)
      decreases Weight(s.right), 2
    {
      assert Tree(root.left, s.left) && Tree(root.right, s.right);
      FootprintAllocated(s.left);
      var n2, t2 := DeMorgan(root.right, s.right);
      if root.right != n2 {
        root.right := n2;
      }
      t := s.(right := t2);
    }

    /** Rewrites the tree in place, reusing its nodes where it can. */
    method DeMorgan(root: TreeNode?, ghost s: Shape) returns (res: TreeNode?, ghost t: Shape)
      requires root != null ==> Tree(root, s)
      modifies if root != null then Footprint(s) else {}
      ensures root == null ==> res == null
      ensures root != null ==>
        && res != null && Tree(res, t) && (forall o :: o in Footprint(t) && o !in Footprint(s) ==> fresh(o))
        && Abs(t) == PushNot(Abs(s), false)
      decreases if root != null then Weight(s) else 0, 1
    {
      if root == null {
        return null, s;
      }
      if root.terminal {
        return root, s;
      }
      if root.name == NOT_STR {
        assert s.NotAt? && Tree(root.left, s.child);
        if !root.left.terminal && root.left.name != NOT_STR {
          var n, u := NegatePair(root, s);
          res, t := RewritePair(n, u);
        } else if !root.left.terminal && root.left.name == NOT_STR {
          assert s.child.NotAt? && Tree(root.left.left, s.child.child) && Weight(s) == 2 * Weight(s.child);
          res, t := DeMorgan(root.left.left, s.child.child);
        } else {
          assert s.child.LeafAt?;
          if root.left.e1.equal != 0 {
            root.left.e1.equal := 3 - root.left.e1.equal;
          }
          return root.left, s.child.(equal := root.left.e1.equal);
        }
      } else {
        res, t := RewritePair(root, s);
      }
    }

    /** Counts the inner nodes that are not AND and collects the tables the leaves mention. */
    method Dfs(root: TreeNode?, ghost s: Shape, known: set<string>)
      requires root != null ==> Tree(root, s) && this !in Footprint(s)
      modifies this
      ensures root == null ==> orNode == old(orNode) && tablesSet == old(tablesSet)
      ensures root != null ==>
        && orNode == old(orNode) + OrCount(Abs(s))
        && tablesSet == old(tablesSet) + TablesIn(Abs(s), known)
      decreases if root != null then Weight(s) + 1 else 0
    {
      if root == null {
        return;
      }
      FootprintAllocated(s);
      if !root.terminal {
        if root.name == AND_STR {
          assert s.PairAt? && Tree(root.left, s.left) && Tree(root.right, s.right);
          Dfs(root.left, s.left, known);
          Dfs(root.right, s.right, known);
        } else {
          ghost var l, r := if s.PairAt? then s.left else s.child, if s.PairAt? then s.right else s.child;
          Dfs(root.left, l, known);
          Dfs(root.right, r, known);
          orNode := orNode + 1;
        }
      } else {
        CollectTables(root.e1, known);
        assert TablesIn(Abs(s), known) == TablesOf(root.e1.variables, known);
      }
    }

    method CollectTables(e: ExpressionInfo, known: set<string>)
      modifies this`tablesSet
      ensures tablesSet == old(tablesSet) + TablesOf(e.variables, known)
    {
      for i := 0 to |e.variables|
        invariant tablesSet == old(tablesSet) + TablesOf(e.variables[..i], known)
      {
        var v := e.variables[i];
        assert e.variables[..i + 1] == e.variables[..i] + [v];
        if v.table in known {
          tablesSet := tablesSet + {v.table};
        }
      }
      assert e.variables[..|e.variables|] == e.variables;
    }

    /** Every area but the last of each side is passed on; the last ones are joined by AND and kept apart
        by OR, where the side that is not kept as it is continues as the last area. */
    method CombineAreas(name: string, left0: seq<Area>, right0: seq<Area>) returns (areas: seq<Area>)
      requires name == AND_STR || name == OR_STR
      requires left0 != [] && right0 != []
      ensures name == AND_STR ==> areas == Front(left0) + Front(right0) + [Last(left0) + Last(right0)]
      ensures name == OR_STR ==>
        areas == Front(left0) + Front(right0) + (
          if Last(left0) != [] then [Last(left0), Last(right0)]
          else if Last(right0) != [] then [Last(right0), []]
          else [[]])
    {
      var left, right := left0, right0;
      var sizeLeft, sizeRight := |left|, |right|;
      areas := [];
      for i := 0 to sizeLeft - 1
        invariant areas == left[..i]
      {
        areas := areas + [left[i]];
      }
      for i := 0 to sizeRight - 1
        invariant areas == Front(left) + right[..i]
      {
        areas := areas + [right[i]];
      }
      assert areas == Front(left0) + Front(right0);
      if name == AND_STR {
        areas := areas + [left[sizeLeft - 1] + right[sizeRight - 1]];
      } else if name == OR_STR {
        if |left[sizeLeft - 1]| != 0 {
          areas := areas + [left[sizeLeft - 1]];
          left := left + [[]];
          sizeLeft := sizeLeft + 1;
        } else if |right[sizeRight - 1]| != 0 {
          areas := areas + [right[sizeRight - 1]];
          right := right + [[]];
          sizeRight := sizeRight + 1;
        }
        assert left[sizeLeft - 1] + right[sizeRight - 1] == if Last(left0) != [] then Last(right0) else [];
        areas := areas + [left[sizeLeft - 1] + right[sizeRight - 1]];
      }
    }

    method GetAreas(root: TreeNode?, ghost s: Shape) returns (areas: seq<Area>)
      requires root != null ==> Tree(root, s) && IsNnf(Abs(s))
      ensures root == null ==> areas == []
      ensures root != null ==> areas == AreasOf(Abs(s))
      decreases if root != null then Weight(s) else 0
    {
      areas := [];
      if root == null {
        return;
      }
      if root.terminal {
        areas := areas + [[root.e1.Value()]];
      } else {
        assert s.PairAt? && Tree(root.left, s.left) && Tree(root.right, s.right);
        FootprintAllocated(s.right);
        var left := GetAreas(root.left, s.left);
        var right := GetAreas(root.right, s.right);
        areas := CombineAreas(root.name, left, right);
      }
    }

    /** What is known of the areas of a rewritten condition. */
    static lemma WhereAreas(c: Cond)
      ensures IsNnf(PushNot(c, false))
      ensures OrCount(PushNot(c, false)) == 0 ==> AreasOf(PushNot(c, false)) == [Leaves(PushNot(c, false))]
      ensures !LosesNot(c, false) ==> forall row: Row :: Eval(c, row) ==> SomeAreaHolds(AreasOf(PushNot(c, false)), row)
      ensures Unshared(c) ==>
        ((forall row: Row :: SomeAreaHolds(AreasOf(PushNot(c, false)), row) <==> Eval(c, row))
         <==> !LosesNot(c, false) && !OrBelowAnd(PushNot(c, false)))
    {
      PushNotShape(c, false);
      if OrCount(PushNot(c, false)) == 0 { SingleArea(PushNot(c, false)); }
      if Unshared(c) { WhereExactIff(c); }
      if !LosesNot(c, false) {
        forall row: Row | Eval(c, row) ensures SomeAreaHolds(AreasOf(PushNot(c, false)), row) { WhereCovered(c, row); }
      }
    }

    /** The planner's first passes: the WHERE tree is rewritten, its inner nodes other than AND and its
        tables are counted, and it is cut into areas. */
    method CutWhere(root: TreeNode?, known: set<string>, ghost s: Shape) returns (areas: seq<Area>)
      requires root != null ==> Tree(root, s) && this !in Footprint(s)
      requires orNode == 0 && tablesSet == {}
      modifies this, if root != null then Footprint(s) else {}
      ensures root == null ==> areas == [] && orNode == 0
      ensures root != null ==>
        && IsNnf(PushNot(Abs(s), false)) && areas == AreasOf(PushNot(Abs(s), false))
        && |areas| == orNode + 1 && (orNode == 0 ==> areas == [Leaves(PushNot(Abs(s), false))])
        && tablesSet == TablesIn(PushNot(Abs(s), false), known)
        && (forall t :: t in tablesSet <==>
              t in known && exists e, v :: e in Leaves(PushNot(Abs(s), false)) && v in e.variables && v.table == t)
      ensures root != null && !LosesNot(Abs(s), false) ==> forall row: Row :: Eval(Abs(s), row) ==> SomeAreaHolds(areas, row)
      ensures root != null && Unshared(Abs(s)) ==>
        ((forall row: Row :: SomeAreaHolds(areas, row) <==> Eval(Abs(s), row))
         <==> !LosesNot(Abs(s), false) && !OrBelowAnd(PushNot(Abs(s), false)))
    {
      var res, t := DeMorgan(root, s);
      if res != null {
        FootprintAllocated(t);
        assert this !in Footprint(t);
      }
      Dfs(res, t, known);
      if res != null { WhereAreas(Abs(s)); }
      areas := GetAreas(res, t);
    }
  }
}
