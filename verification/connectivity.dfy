/** Which tables a set of join conditions connects. */
module Connectivity {
  import opened Expressions
  import opened Plans

  /** The plans the tables start with, the join conditions, and the columns that have an index. */
  datatype Problem = Problem(start: map<string, Operation>, area: seq<Expression>, indexed: set<(string, string)>) {

    /** An equality between two columns that both have an index. */
    predicate Eligible(e: Expression) {
      e.equal == 1 && |e.variables| == 2 &&
      (e.variables[0].table, e.variables[0].name) in indexed && (e.variables[1].table, e.variables[1].name) in indexed
    }

    ghost predicate Equates(e: Expression, a: string, b: string) {
      e in area && Eligible(e) && e.variables[0].table == a && e.variables[1].table == b
    }

    ghost predicate Link(a: string, b: string) {
      a in start && b in start &&
      (start[a] == start[b] || exists e :: Equates(e, a, b) || Equates(e, b, a))
    }

    ghost predicate IsWalk(p: seq<string>) {
      p != [] && (forall i :: 0 <= i < |p| ==> p[i] in start) && forall i :: 0 < i < |p| ==> Link(p[i - 1], p[i])
    }

    /** Two planned tables are connected when some chain of shared plans and equalities leads from one to the other. */
    ghost predicate Connected(a: string, b: string) {
      exists p :: IsWalk(p) && p[0] == a && p[|p| - 1] == b
    }

    lemma ConnectedLink(a: string, b: string)
      requires Link(a, b)
      ensures Connected(a, b)
    {
      var p := [a, b];
      assert IsWalk(p) && p[0] == a && p[|p| - 1] == b;
    }

    lemma ConnectedSym(a: string, b: string)
      requires Connected(a, b)
      ensures Connected(b, a)
    {
      var p :| IsWalk(p) && p[0] == a && p[|p| - 1] == b;
      var q := seq(|p|, i requires 0 <= i < |p| => p[|p| - 1 - i]);
      forall i | 0 < i < |q| ensures Link(q[i - 1], q[i]) {
        assert Link(p[|p| - 1 - i], p[|p| - i]);
        assert q[i - 1] == p[|p| - i] && q[i] == p[|p| - 1 - i];
      }
      assert IsWalk(q) && q[0] == b && q[|q| - 1] == a;
    }

    lemma ConnectedTrans(a: string, b: string, c: string)
      requires Connected(a, b) && Connected(b, c)
      ensures Connected(a, c)
    {
      var p :| IsWalk(p) && p[0] == a && p[|p| - 1] == b;
      var q :| IsWalk(q) && q[0] == b && q[|q| - 1] == c;
      var r := p + q[1..];
      forall i | 0 < i < |r| ensures Link(r[i - 1], r[i]) {
        if i > |p| {
          assert Link(q[i - |p|], q[i - |p| + 1]);
        } else if i == |p| {
          assert Link(q[0], q[1]);
        } else {
          assert Link(p[i - 1], p[i]);
        }
      }
      assert IsWalk(r) && r[0] == a && r[|r| - 1] == c;
    }

    /** Tables with one operation are connected. */
    ghost predicate Sound(ops: map<string, Operation>) {
      ops.Keys == start.Keys && forall a, b :: a in ops && b in ops && ops[a] == ops[b] ==> Connected(a, b)
    }

    /** Every eligible equality between planned tables has been dealt with. */
    ghost predicate Settled(ops: map<string, Operation>, es: seq<Expression>) {
      forall e :: e in es && Eligible(e) ==> Agree(ops, e)
    }

    ghost predicate Agree(ops: map<string, Operation>, e: Expression)
      requires Eligible(e)
    {
      var (t1, t2) := (e.variables[0].table, e.variables[1].table);
      t1 in ops && t2 in ops ==> ops[t1] == ops[t2]
    }

    /** Tables that had one operation still have one. */
    ghost predicate Coarser(before: map<string, Operation>, after: map<string, Operation>) {
      before.Keys == after.Keys && forall a, b :: a in before && b in before && before[a] == before[b] ==> after[a] == after[b]
    }

    lemma StartSound()
      ensures Sound(start)
    {
      forall a, b | a in start && b in start && start[a] == start[b] ensures Connected(a, b) {
        ConnectedLink(a, b);
      }
    }

    lemma MergeSound(ops: map<string, Operation>, t1: string, t2: string, root: Operation)
      requires Sound(ops) && t1 in ops && t2 in ops && Link(t1, t2) && IsNew(root, ops)
      ensures Sound(Merged(ops, ops[t1], ops[t2], root))
    {
      var ops' := Merged(ops, ops[t1], ops[t2], root);
      ConnectedLink(t1, t2);
      forall a | a in ops && ops'[a] == root ensures Connected(a, t1) && Connected(t1, a) {
        var near := if ops[a] == ops[t1] then t1 else t2;
        assert Connected(a, near);
        if near == t2 {
          ConnectedSym(t1, t2);
          ConnectedTrans(a, t2, t1);
        }
        ConnectedSym(a, t1);
      }
      forall a, b | a in ops' && b in ops' && ops'[a] == ops'[b] ensures Connected(a, b) {
        if ops'[a] == root { ConnectedTrans(a, t1, b); } else { assert ops[a] == ops[b]; }
      }
    }

    /** Passing over one more expression of the area, without a change or with the merge it asks for. */
    lemma Step(before: map<string, Operation>, ops: map<string, Operation>, ops': map<string, Operation>, i: nat)
      requires i < |area| && Coarser(before, ops) && Settled(ops, area[..i]) && Coarser(ops, ops')
      requires Eligible(area[i]) ==> Agree(ops', area[i])
      ensures Coarser(before, ops') && Settled(ops', area[..i + 1])
    {
      assert area[..i + 1] == area[..i] + [area[i]];
      forall f | f in area[..i + 1] && Eligible(f) ensures Agree(ops', f) {
        if f in area[..i] { assert Agree(ops, f); }
      }
    }

    lemma {:induction false} WalkAgrees(ops: map<string, Operation>, p: seq<string>)
      requires Coarser(start, ops) && Settled(ops, area) && IsWalk(p)
      ensures ops[p[0]] == ops[p[|p| - 1]]
    {
      if |p| > 1 {
        var q := p[..|p| - 1];
        assert IsWalk(q) by {
          forall i | 0 < i < |q| ensures Link(q[i - 1], q[i]) { assert Link(p[i - 1], p[i]); }
        }
        WalkAgrees(ops, q);
        var (a, b) := (p[|p| - 2], p[|p| - 1]);
        assert Link(p[|p| - 1 - 1], p[|p| - 1]);
        if start[a] != start[b] {
          var e :| Equates(e, a, b) || Equates(e, b, a);
          assert Agree(ops, e);
        }
      }
    }

    /** A sound and settled assignment that only merged shares operations exactly within the connected components. */
    lemma SharesIffConnected(ops: map<string, Operation>)
      requires Sound(ops) && Coarser(start, ops) && Settled(ops, area)
      ensures forall a, b :: a in ops && b in ops ==> (ops[a] == ops[b] <==> Connected(a, b))
    {
      forall a, b | a in ops && b in ops && Connected(a, b) ensures ops[a] == ops[b] {
        var p :| IsWalk(p) && p[0] == a && p[|p| - 1] == b;
        WalkAgrees(ops, p);
      }
    }
  }
}
