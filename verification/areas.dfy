/** The conjunctive areas a condition is cut into, and how much of its meaning they keep. */
module Areas {
  import opened Expressions
  import opened Conditions

  type Area = seq<Expression>

  function Front(areas: seq<Area>): seq<Area>
    requires areas != []
  {
    areas[..|areas| - 1]
  }

  function Last(areas: seq<Area>): Area
    requires areas != []
  {
    areas[|areas| - 1]
  }

  /** AND joins the last areas of its sides into one, OR keeps both; every other area is passed on. */
  function AreasOf(c: Cond): (areas: seq<Area>)
    requires IsNnf(c)
    ensures |areas| == OrCount(c) + 1
    ensures forall i :: 0 <= i < |areas| ==> areas[i] != []
  {
    match c
    case Leaf(e) => [[e]]
    case And(l, r) =>
      var (al, ar) := (AreasOf(l), AreasOf(r));
      Front(al) + Front(ar) + [Last(al) + Last(ar)]
    case Or(l, r) =>
      var (al, ar) := (AreasOf(l), AreasOf(r));
      Front(al) + Front(ar) + [Last(al), Last(ar)]
  }

  /** The number of inner nodes that are not AND: the planner's `or_node`. */
  function OrCount(c: Cond): nat {
    match c
    case Leaf(_) => 0
    case And(l, r) => OrCount(l) + OrCount(r)
    case Or(l, r) => OrCount(l) + OrCount(r) + 1
    case Not(d) => OrCount(d) + 1
  }

  /** The leaves that are not on the left of an OR. */
  ghost function Rightmost(c: Cond): Area {
    match c
    case Leaf(e) => [e]
    case And(l, r) => Rightmost(l) + Rightmost(r)
    case Or(_, r) => Rightmost(r)
    case Not(_) => []
  }

  /** What every OR of a condition cuts off on its left, an OR after those below it. */
  ghost function CutOff(c: Cond): seq<Area> {
    match c
    case Leaf(_) => []
    case And(l, r) => CutOff(l) + CutOff(r)
    case Or(l, r) => CutOff(l) + CutOff(r) + [Rightmost(l)]
    case Not(_) => []
  }

  /** So there is one area for the left side of every OR and one for what is left. */
  lemma {:induction false} AreasAreCutOff(c: Cond)
    requires IsNnf(c)
    ensures AreasOf(c) == CutOff(c) + [Rightmost(c)]
  {
    match c
    case Leaf(_) =>
    case And(l, r) => AreasAreCutOff(l); AreasAreCutOff(r);
    case Or(l, r) => AreasAreCutOff(l); AreasAreCutOff(r);
  }

  ghost function Flatten(areas: seq<Area>): Area {
    if areas == [] then [] else areas[0] + Flatten(areas[1..])
  }

  lemma {:induction false} FlattenAppend(a: seq<Area>, b: seq<Area>)
    ensures Flatten(a + b) == Flatten(a) + Flatten(b)
  {
    if a == [] {
      assert a + b == b;
    } else {
      FlattenAppend(a[1..], b);
      assert (a + b)[1..] == a[1..] + b;
      assert (a + b)[0] == a[0];
    }
  }

  lemma FlattenSplit(areas: seq<Area>)
    requires areas != []
    ensures Flatten(areas) == Flatten(Front(areas)) + Last(areas)
  {
    FlattenAppend(Front(areas), [Last(areas)]);
    assert areas == Front(areas) + [Last(areas)];
    assert Flatten([Last(areas)]) == Last(areas) + Flatten([]);
  }

  /** Moving the two last areas to the end, joined or not, loses no leaf. */
  lemma FlattenPair(al: seq<Area>, ar: seq<Area>, tail: seq<Area>)
    requires al != [] && ar != []
    requires tail == [Last(al) + Last(ar)] || tail == [Last(al), Last(ar)]
    ensures multiset(Flatten(Front(al) + Front(ar) + tail)) == multiset(Flatten(al)) + multiset(Flatten(ar))
  {
    FlattenSplit(al);
    FlattenSplit(ar);
    FlattenAppend(Front(al) + Front(ar), tail);
    FlattenAppend(Front(al), Front(ar));
    assert Flatten(tail) == Last(al) + Last(ar) by {
      assert tail[1..] == if |tail| == 1 then [] else [Last(ar)];
      assert Flatten([Last(ar)]) == Last(ar) + Flatten([]);
    }
  }

  /** Together the areas hold every leaf exactly once. */
  lemma {:induction false} AreasHoldEachLeafOnce(c: Cond)
    requires IsNnf(c)
    ensures multiset(Flatten(AreasOf(c))) == multiset(Leaves(c))
  {
    match c
    case Leaf(e) =>
      assert Flatten([[e]]) == [e] + Flatten([]);
    case And(l, r) =>
      AreasHoldEachLeafOnce(l);
      AreasHoldEachLeafOnce(r);
      FlattenPair(AreasOf(l), AreasOf(r), [Last(AreasOf(l)) + Last(AreasOf(r))]);
    case Or(l, r) =>
      AreasHoldEachLeafOnce(l);
      AreasHoldEachLeafOnce(r);
      FlattenPair(AreasOf(l), AreasOf(r), [Last(AreasOf(l)), Last(AreasOf(r))]);
  }

  /** Without OR there is one area: all leaves from left to right. */
  lemma {:induction false} SingleArea(c: Cond)
    requires IsNnf(c) && OrCount(c) == 0
    ensures AreasOf(c) == [Leaves(c)]
  {
    match c
    case Leaf(_) =>
    case And(l, r) => SingleArea(l); SingleArea(r);
  }

  ghost predicate AllHold(a: Area, row: Row) {
    forall e :: e in a ==> Holds(e, row)
  }

  ghost predicate SomeAreaHolds(areas: seq<Area>, row: Row) {
    exists a :: a in areas && AllHold(a, row)
  }

  lemma InFrontOrLast(areas: seq<Area>, a: Area)
    requires areas != []
    ensures a in areas <==> a in Front(areas) || a == Last(areas)
  {
    if a in areas {
      var i :| 0 <= i < |areas| && areas[i] == a;
      assert i == |areas| - 1 || Front(areas)[i] == a;
    }
  }

  /** A row that satisfies the condition satisfies every leaf of some area, so no row is lost. */
  lemma {:induction false} AreasCover(c: Cond, row: Row)
    requires IsNnf(c) && Eval(c, row)
    ensures SomeAreaHolds(AreasOf(c), row)
  {
    match c
    case Leaf(e) => assert [e] in AreasOf(c);
    case And(l, r) =>
      AreasCover(l, row);
      AreasCover(r, row);
      var (al, ar) := (AreasOf(l), AreasOf(r));
      var a :| a in al && AllHold(a, row);
      var b :| b in ar && AllHold(b, row);
      if a in Front(al) {
        assert a in AreasOf(c);
      } else if b in Front(ar) {
        assert b in AreasOf(c);
      } else {
        InFrontOrLast(al, a);
        InFrontOrLast(ar, b);
        assert a + b == Last(AreasOf(c));
        assert AllHold(a + b, row);
      }
    case Or(l, r) =>
      var side := if Eval(l, row) then l else r;
      AreasCover(side, row);
      var a :| a in AreasOf(side) && AllHold(a, row);
      AreasOfOr(l, r, a);
  }

  /** OR passes on exactly the areas of its two sides. */
  lemma AreasOfOr(l: Cond, r: Cond, a: Area)
    requires IsNnf(l) && IsNnf(r)
    ensures a in AreasOf(Or(l, r)) <==> a in AreasOf(l) || a in AreasOf(r)
  {
    var (al, ar) := (AreasOf(l), AreasOf(r));
    InFrontOrLast(al, a);
    InFrontOrLast(ar, a);
    assert a in Front(al) + Front(ar) + [Last(al), Last(ar)]
      <==> a in Front(al) || a in Front(ar) || a == Last(al) || a == Last(ar);
  }

  /** Some AND has an OR below it. */
  predicate OrBelowAnd(c: Cond) {
    match c
    case Leaf(_) => false
    case And(l, r) => OrCount(l) + OrCount(r) > 0
    case Or(l, r) => OrBelowAnd(l) || OrBelowAnd(r)
    case Not(d) => OrBelowAnd(d)
  }

  lemma {:induction false} ConjunctionMeaning(c: Cond, row: Row)
    requires IsNnf(c) && OrCount(c) == 0
    ensures Eval(c, row) <==> AllHold(Leaves(c), row)
  {
    match c
    case Leaf(_) =>
    case And(l, r) => ConjunctionMeaning(l, row); ConjunctionMeaning(r, row);
  }

  lemma {:induction false} AreasSound(c: Cond, row: Row)
    requires IsNnf(c) && !OrBelowAnd(c) && SomeAreaHolds(AreasOf(c), row)
    ensures Eval(c, row)
  {
    match c
    case Leaf(_) =>
    case And(l, r) =>
      SingleArea(c);
      ConjunctionMeaning(c, row);
    case Or(l, r) =>
      var a :| a in AreasOf(c) && AllHold(a, row);
      AreasOfOr(l, r, a);
      if a in AreasOf(l) { AreasSound(l, row); } else { AreasSound(r, row); }
  }

  /** The row on which, among the leaves of `c`, exactly those with an id in `s` are true. */
  ghost function RowFor(c: Cond, s: set<nat>): Row {
    match c
    case Leaf(e) => if (e.id in s) == (e.equal == 2) then {} else {e.id}
    case And(l, r) => RowFor(l, s) + RowFor(r, s)
    case Or(l, r) => RowFor(l, s) + RowFor(r, s)
    case Not(d) => RowFor(d, s)
  }

  lemma {:induction false} RowForLeaves(c: Cond, s: set<nat>)
    requires Unshared(c)
    ensures RowFor(c, s) <= CondIds(c)
    ensures forall e :: e in Leaves(c) ==> e.id in CondIds(c) && (Holds(e, RowFor(c, s)) <==> e.id in s)
  {
    match c
    case Leaf(_) =>
    case And(l, r) => RowForLeaves(l, s); RowForLeaves(r, s);
    case Or(l, r) => RowForLeaves(l, s); RowForLeaves(r, s);
    case Not(d) => RowForLeaves(d, s);
  }

  /** With none of its leaves true, a condition without NOT is false. */
  lemma {:induction false} NothingHolds(c: Cond, row: Row)
    requires IsNnf(c) && forall e :: e in Leaves(c) ==> !Holds(e, row)
    ensures !Eval(c, row)
  {
    match c
    case Leaf(_) =>
    case And(l, r) => NothingHolds(l, row);
    case Or(l, r) => NothingHolds(l, row); NothingHolds(r, row);
  }

  lemma AreaLeaves(c: Cond, a: Area)
    requires IsNnf(c) && a in AreasOf(c)
    ensures forall e :: e in a ==> e in Leaves(c)
  {
    var i :| 0 <= i < |AreasOf(c)| && AreasOf(c)[i] == a;
    AreasHoldEachLeafOnce(c);
    forall e | e in a ensures e in Leaves(c) {
      FlattenHas(AreasOf(c), i, e);
      assert e in multiset(Flatten(AreasOf(c)));
    }
  }

  lemma {:induction false} FlattenHas(areas: seq<Area>, i: nat, e: Expression)
    requires i < |areas| && e in areas[i]
    ensures e in Flatten(areas)
  {
    if i > 0 { FlattenHas(areas[1..], i - 1, e); }
  }

  lemma {:induction false} LeafIds(c: Cond)
    ensures forall e :: e in Leaves(c) ==> e.id in CondIds(c)
  {
    match c
    case Leaf(_) =>
    case And(l, r) => LeafIds(l); LeafIds(r);
    case Or(l, r) => LeafIds(l); LeafIds(r);
    case Not(d) => LeafIds(d);
  }

  /** With an OR below an AND, some area is too weak: making only its leaves true leaves the condition false. */
  lemma {:induction false} WeakArea(c: Cond) returns (a: Area)
    requires IsNnf(c) && Unshared(c) && OrBelowAnd(c)
    ensures a in AreasOf(c)
    ensures forall row: Row :: (forall e :: e in Leaves(c) ==> (Holds(e, row) <==> e.id in Ids(a))) ==> !Eval(c, row)
  {
    match c
    case And(l, r) =>
      var (al, ar) := (AreasOf(l), AreasOf(r));
      var (side, other) := if OrCount(l) > 0 then (l, r) else (r, l);
      a := AreasOf(side)[0];
      assert Front(AreasOf(side))[0] == a;
      assert a in Front(al) + Front(ar);
      AreaAvoids(side, other, a);
      forall row: Row | forall e :: e in Leaves(c) ==> (Holds(e, row) <==> e.id in Ids(a)) ensures !Eval(c, row) {
        NothingHolds(other, row);
      }
    case Or(l, r) =>
      var (side, other) := if OrBelowAnd(l) then (l, r) else (r, l);
      a := WeakArea(side);
      AreasOfOr(l, r, a);
      AreaAvoids(side, other, a);
      forall row: Row | forall e :: e in Leaves(c) ==> (Holds(e, row) <==> e.id in Ids(a)) ensures !Eval(c, row) {
        NothingHolds(other, row);
      }
  }

  lemma AreaAvoids(side: Cond, other: Cond, a: Area)
    requires IsNnf(side) && CondIds(side) !! CondIds(other) && a in AreasOf(side)
    ensures forall e :: e in Leaves(other) ==> e.id !in Ids(a)
  {
    AreaLeaves(side, a);
    LeafIds(side);
    LeafIds(other);
  }

  /** (a OR b) AND d: a alone is an area, although d is not met. */
  lemma WeakAreaExample(a: Expression, b: Expression, d: Expression)
    requires a.equal == b.equal == d.equal == 1 && a.id != d.id && b.id != d.id
    ensures var c := And(Or(Leaf(a), Leaf(b)), Leaf(d));
            IsNnf(c) && AreasOf(c) == [[a], [b, d]] && SomeAreaHolds(AreasOf(c), {a.id}) && !Eval(c, {a.id})
  {
    var (l, r) := (Or(Leaf(a), Leaf(b)), Leaf(d));
    assert IsNnf(Leaf(a)) && IsNnf(Leaf(b)) && IsNnf(l) && IsNnf(r);
    assert AreasOf(l) == [[a], [b]] && AreasOf(r) == [[d]];
    assert Front([[a], [b]]) == [[a]] && Front([[d]]) == [] && [b] + [d] == [b, d];
    assert AreasOf(And(l, r)) == [[a]] + [] + [[b, d]];
    assert AreasOf(And(l, r))[0] == [a] && AllHold([a], {a.id});
    assert !Eval(r, {a.id});
  }

  /** The areas mean the same as the condition, on every row, exactly when no OR lies below an AND. */
  lemma AreasExactIff(c: Cond)
    requires IsNnf(c) && Unshared(c)
    ensures (forall row: Row :: SomeAreaHolds(AreasOf(c), row) <==> Eval(c, row)) <==> !OrBelowAnd(c)
  {
    if OrBelowAnd(c) {
      var a := WeakArea(c);
      var row := RowFor(c, Ids(a));
      RowForLeaves(c, Ids(a));
      AreaLeaves(c, a);
      assert AllHold(a, row);
      assert SomeAreaHolds(AreasOf(c), row) && !Eval(c, row);
    } else {
      forall row: Row ensures SomeAreaHolds(AreasOf(c), row) <==> Eval(c, row) {
        if Eval(c, row) { AreasCover(c, row); }
        if SomeAreaHolds(AreasOf(c), row) { AreasSound(c, row); }
      }
    }
  }

  /** From the WHERE tree to the areas: no row that satisfies the clause is missed by all areas, unless
      a NOT above an ordering comparison was lost. */
  lemma WhereCovered(c: Cond, row: Row)
    requires !LosesNot(c, false) && Eval(c, row)
    ensures IsNnf(PushNot(c, false)) && SomeAreaHolds(AreasOf(PushNot(c, false)), row)
  {
    PushNotShape(c, false);
    PushNotMeaning(c, false, row);
    AreasCover(PushNot(c, false), row);
  }

  /** A WHERE clause and the areas cut from it agree on every row exactly when no NOT was lost and the
      rewritten tree has no OR below an AND. */
  lemma WhereExactIff(c: Cond)
    requires Unshared(c)
    ensures IsNnf(PushNot(c, false))
    ensures (forall row: Row :: SomeAreaHolds(AreasOf(PushNot(c, false)), row) <==> Eval(c, row))
       <==> !LosesNot(c, false) && !OrBelowAnd(PushNot(c, false))
  {
    var d := PushNot(c, false);
    PushNotShape(c, false);
    if LosesNot(c, false) {
      var row := LostNotRow(c, false, false);
      AreasCover(d, row);
      assert !(SomeAreaHolds(AreasOf(d), row) <==> Eval(c, row));
    } else {
      AreasExactIff(d);
      forall row: Row ensures Eval(d, row) == Eval(c, row) { PushNotMeaning(c, false, row); }
      if OrBelowAnd(d) {
        var row: Row :| !(SomeAreaHolds(AreasOf(d), row) <==> Eval(d, row));
        assert !(SomeAreaHolds(AreasOf(d), row) <==> Eval(c, row));
      }
    }
  }
}
