/** WHERE conditions as values, their meaning on a row, and negation normal form. */
module Conditions {
  import opened Expressions

  datatype Cond =
    | Leaf(e: Expression)
    | And(left: Cond, right: Cond)
    | Or(left: Cond, right: Cond)
    | Not(child: Cond)

  /** A row, reduced to the set of comparisons that hold on it. For a leaf of class 1 or 2 the
      comparison is the equality of its two sides, so a "<>" leaf is true when its id is absent. */
  type Row = set<nat>

  predicate Holds(e: Expression, row: Row) {
    if e.equal == 2 then e.id !in row else e.id in row
  }

  predicate Eval(c: Cond, row: Row) {
    match c
    case Leaf(e) => Holds(e, row)
    case And(l, r) => Eval(l, row) && Eval(r, row)
    case Or(l, r) => Eval(l, row) || Eval(r, row)
    case Not(d) => !Eval(d, row)
  }

  function Leaves(c: Cond): seq<Expression> {
    match c
    case Leaf(e) => [e]
    case And(l, r) => Leaves(l) + Leaves(r)
    case Or(l, r) => Leaves(l) + Leaves(r)
    case Not(d) => Leaves(d)
  }

  ghost function CondIds(c: Cond): set<nat> {
    match c
    case Leaf(e) => {e.id}
    case And(l, r) => CondIds(l) + CondIds(r)
    case Or(l, r) => CondIds(l) + CondIds(r)
    case Not(d) => CondIds(d)
  }

  /** Every leaf is an object of its own. */
  ghost predicate Unshared(c: Cond) {
    match c
    case Leaf(_) => true
    case And(l, r) => Unshared(l) && Unshared(r) && CondIds(l) !! CondIds(r)
    case Or(l, r) => Unshared(l) && Unshared(r) && CondIds(l) !! CondIds(r)
    case Not(d) => Unshared(d)
  }

  predicate IsNnf(c: Cond) {
    match c
    case Leaf(_) => true
    case And(l, r) => IsNnf(l) && IsNnf(r)
    case Or(l, r) => IsNnf(l) && IsNnf(r)
    case Not(_) => false
  }

  /** What NOT does to a single comparison: "=" and "<>" change places, any other comparison stays. */
  function Flip(e: Expression): Expression {
    if e.equal != 0 then e.(equal := 3 - e.equal) else e
  }

  /** The tree the planner works on: every NOT pushed down to the leaves. `negated` says whether an
      odd number of NOTs stands above `c`. */
  function PushNot(c: Cond, negated: bool): Cond {
    match c
    case Leaf(e) => Leaf(if negated then Flip(e) else e)
    case And(l, r) => if negated then Or(PushNot(l, true), PushNot(r, true)) else And(PushNot(l, false), PushNot(r, false))
    case Or(l, r) => if negated then And(PushNot(l, true), PushNot(r, true)) else Or(PushNot(l, false), PushNot(r, false))
    case Not(d) => PushNot(d, !negated)
  }

  /** Some comparison that is neither "=" nor "<>" lies below an odd number of NOTs. */
  predicate LosesNot(c: Cond, negated: bool) {
    match c
    case Leaf(e) => negated && e.equal == 0
    case And(l, r) => LosesNot(l, negated) || LosesNot(r, negated)
    case Or(l, r) => LosesNot(l, negated) || LosesNot(r, negated)
    case Not(d) => LosesNot(d, !negated)
  }

  lemma {:induction false} PushNotShape(c: Cond, negated: bool)
    ensures IsNnf(PushNot(c, negated))
    ensures CondIds(PushNot(c, negated)) == CondIds(c)
    ensures |Leaves(PushNot(c, negated))| == |Leaves(c)|
    ensures forall i :: 0 <= i < |Leaves(c)| ==>
      var (after, before) := (Leaves(PushNot(c, negated))[i], Leaves(c)[i]);
      && after.id == before.id && after.oper == before.oper && after.variables == before.variables
      && (before.equal == 0 ==> after.equal == 0) && (before.equal != 0 ==> after.equal == 1 || after.equal == 2)
    ensures Unshared(c) ==> Unshared(PushNot(c, negated))
  {
    match c
    case Leaf(_) =>
    case And(l, r) => PushNotShape(l, negated); PushNotShape(r, negated);
    case Or(l, r) => PushNotShape(l, negated); PushNotShape(r, negated);
    case Not(d) => PushNotShape(d, !negated);
  }

  lemma {:induction false} PushNotMeaning(c: Cond, negated: bool, row: Row)
    requires !LosesNot(c, negated)
    ensures Eval(PushNot(c, negated), row) == (Eval(c, row) != negated)
  {
    match c
    case Leaf(_) =>
    case And(l, r) => PushNotMeaning(l, negated, row); PushNotMeaning(r, negated, row);
    case Or(l, r) => PushNotMeaning(l, negated, row); PushNotMeaning(r, negated, row);
    case Not(d) => PushNotMeaning(d, !negated, row);
  }

  /** The value of a condition depends on its own leaves only. */
  lemma {:induction false} EvalLocal(c: Cond, row: Row, other: Row)
    requires forall i :: i in CondIds(c) ==> (i in row <==> i in other)
    ensures Eval(c, row) == Eval(c, other)
  {
    match c
    case Leaf(_) =>
    case And(l, r) => EvalLocal(l, row, other); EvalLocal(r, row, other);
    case Or(l, r) => EvalLocal(l, row, other); EvalLocal(r, row, other);
    case Not(d) => EvalLocal(d, row, other);
  }

  /** Rows for two conditions without common leaves can be glued. */
  lemma Glue(l: Cond, r: Cond, rowL: Row, rowR: Row)
    requires rowL <= CondIds(l) && rowR <= CondIds(r) && CondIds(l) !! CondIds(r)
    ensures Eval(l, rowL + rowR) == Eval(l, rowL)
    ensures Eval(r, rowL + rowR) == Eval(r, rowR)
  {
    EvalLocal(l, rowL + rowR, rowL);
    EvalLocal(r, rowL + rowR, rowR);
  }

  /** A condition with unshared leaves can be made true and can be made false. */
  lemma {:induction false} Attain(c: Cond, value: bool) returns (row: Row)
    requires Unshared(c)
    ensures row <= CondIds(c) && Eval(c, row) == value
  {
    match c
    case Leaf(e) => row := if value == (e.equal == 2) then {} else {e.id};
    case And(l, r) =>
      var rowL := Attain(l, value);
      var rowR := Attain(r, value);
      Glue(l, r, rowL, rowR);
      row := rowL + rowR;
    case Or(l, r) =>
      var rowL := Attain(l, value);
      var rowR := Attain(r, value);
      Glue(l, r, rowL, rowR);
      row := rowL + rowR;
    case Not(d) => row := Attain(d, !value);
  }

  /** Once a NOT is lost, some row has value `want` under the condition (read with its polarity) and
      the opposite value under the rewritten one. */
  lemma {:induction false} LostNotRow(c: Cond, negated: bool, want: bool) returns (row: Row)
    requires Unshared(c) && LosesNot(c, negated)
    ensures row <= CondIds(c)
    ensures (Eval(c, row) != negated) == want
    ensures Eval(PushNot(c, negated), row) == !want
    decreases c, 1
  {
    match c
    case Leaf(e) => row := if want then {} else {e.id};
    case And(l, r) => row := LostNotRowPair(c, l, r, negated, want, !negated);
    case Or(l, r) => row := LostNotRowPair(c, l, r, negated, want, negated);
    case Not(d) => row := LostNotRow(d, !negated, want);
  }

  /** The step of LostNotRow at a connective, which acts as AND when `conj` and as OR otherwise. */
  lemma {:induction false} LostNotRowPair(c: Cond, l: Cond, r: Cond, negated: bool, want: bool,
                                          conj: bool) returns (row: Row)
    requires c == And(l, r) || c == Or(l, r)
    requires Unshared(l) && Unshared(r) && CondIds(l) !! CondIds(r)
    requires LosesNot(l, negated) || LosesNot(r, negated)
    ensures row <= CondIds(l) + CondIds(r)
    ensures var vl, vr := Eval(l, row) != negated, Eval(r, row) != negated;
            (if conj then vl && vr else vl || vr) == want
    ensures var wl, wr := Eval(PushNot(l, negated), row), Eval(PushNot(r, negated), row);
            (if conj then wl && wr else wl || wr) == !want
    decreases c, 0
  {
    var (bad, rest) := if LosesNot(l, negated) then (l, r) else (r, l);
    PushNotShape(bad, negated);
    PushNotShape(rest, negated);
    var rowB := LostNotRow(bad, negated, want);
    // The other side must not disturb the side whose value decides.
    var rowR;
    if conj == want {
      rowR := Attain(rest, want != negated);
    } else {
      rowR := Attain(PushNot(rest, negated), !want);
    }
    Glue(bad, rest, rowB, rowR);
    Glue(PushNot(bad, negated), PushNot(rest, negated), rowB, rowR);
    row := rowB + rowR;
  }

  /** NOT over a single ordering comparison is simply dropped. */
  lemma OrderingLosesNot(e: Expression)
    requires e.equal == 0
    ensures PushNot(Not(Leaf(e)), false) == Leaf(e)
    ensures Eval(Not(Leaf(e)), {}) && !Eval(PushNot(Not(Leaf(e)), false), {})
  {
  }

  /** Pushing NOT down keeps the meaning of the condition on every row exactly when no comparison other
      than "=" and "<>" lies below an odd number of NOTs. */
  lemma PushNotKeepsMeaningIff(c: Cond)
    requires Unshared(c)
    ensures (forall row: Row :: Eval(PushNot(c, false), row) == Eval(c, row)) <==> !LosesNot(c, false)
  {
    if LosesNot(c, false) {
      var row := LostNotRow(c, false, true);
      assert Eval(PushNot(c, false), row) != Eval(c, row);
    } else {
      forall row: Row ensures Eval(PushNot(c, false), row) == Eval(c, row) {
        PushNotMeaning(c, false, row);
      }
    }
  }
}
