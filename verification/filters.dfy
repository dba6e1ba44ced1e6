/** Which expressions of an area become filters, over any sequence of requests. */
module Filters {
  import opened Expressions

  /** A filter's selectivity class and the number of operations it is charged with. */
  datatype Filter = Filter(isEqual: bool, numOfOperations: nat)

  /** A request names the tables on the two sides of an operation. */
  type Call = (seq<string>, seq<string>)

  ghost predicate FromTables(e: Expression, tables: seq<string>) {
    tables == [] || exists v :: v in e.variables && v.table in tables
  }

  ghost predicate Qualifies(e: Expression, call: Call) {
    FromTables(e, call.0) && FromTables(e, call.1)
  }

  /** The expressions a request takes from the area, in area order; `used` holds those taken before. */
  ghost function Taken(area: seq<Expression>, used: set<nat>, call: Call): seq<Expression> {
    if area == [] then []
    else if area[0].id !in used && Qualifies(area[0], call) then
      [area[0]] + Taken(area[1..], used + {area[0].id}, call)
    else Taken(area[1..], used, call)
  }

  function FilterFor(e: Expression): Filter {
    Filter(e.equal == 1, e.oper)
  }

  ghost function Charges(es: seq<Expression>): seq<Filter> {
    seq(|es|, i requires 0 <= i < |es| => FilterFor(es[i]))
  }

  /** The operations that some filters carry, together. */
  ghost function OperationsOf(fs: multiset<Filter>): nat {
    if fs == multiset{} then 0
    else
      var f :| f in fs;
      f.numOfOperations + OperationsOf(fs - multiset{f})
  }

  lemma {:induction false} OperationsPick(fs: multiset<Filter>, x: Filter)
    requires x in fs
    ensures OperationsOf(fs) == x.numOfOperations + OperationsOf(fs - multiset{x})
    decreases |fs|
  {
    var f :| f in fs && OperationsOf(fs) == f.numOfOperations + OperationsOf(fs - multiset{f});
    if f != x {
      OperationsPick(fs - multiset{f}, x);
      OperationsPick(fs - multiset{x}, f);
      assert fs - multiset{f} - multiset{x} == fs - multiset{x} - multiset{f};
    }
  }

  /** The filters made from some expressions carry exactly the operations of these. */
  lemma {:induction false} ChargesCarry(es: seq<Expression>)
    ensures OperationsOf(multiset(Charges(es))) == Operations(es)
  {
    if es == [] {
      assert Charges(es) == [];
    } else {
      var f := FilterFor(es[0]);
      assert Charges(es) == [f] + Charges(es[1..]);
      OperationsPick(multiset(Charges(es)), f);
      assert multiset(Charges(es)) - multiset{f} == multiset(Charges(es[1..]));
      ChargesCarry(es[1..]);
    }
  }

  ghost function Operations(es: seq<Expression>): nat {
    if es == [] then 0 else es[0].oper + Operations(es[1..])
  }

  /** The elements of the area the condition keeps, in area order. */
  ghost function Keep(area: seq<Expression>, keep: set<nat>): seq<Expression> {
    if area == [] then []
    else if area[0].id in keep then [area[0]] + Keep(area[1..], keep)
    else Keep(area[1..], keep)
  }

  ghost function QualifyingIds(area: seq<Expression>, used: set<nat>, call: Call): set<nat> {
    set e | e in area && e.id !in used && Qualifies(e, call) :: e.id
  }

  /** On an area of distinct objects a request takes exactly the unused qualifying ones, in area order. */
  lemma {:induction false} TakenExactly(area: seq<Expression>, used: set<nat>, call: Call)
    requires DistinctIds(area)
    ensures Taken(area, used, call) == Keep(area, QualifyingIds(area, used, call))
  {
    if area != [] {
      var rest := area[1..];
      var now := if area[0].id !in used && Qualifies(area[0], call) then used + {area[0].id} else used;
      TakenExactly(rest, now, call);
      KeepAgree(rest, QualifyingIds(rest, now, call), QualifyingIds(area, used, call));
    }
  }

  lemma {:induction false} KeepAgree(area: seq<Expression>, a: set<nat>, b: set<nat>)
    requires forall e :: e in area ==> (e.id in a <==> e.id in b)
    ensures Keep(area, a) == Keep(area, b)
  {
    if area != [] { KeepAgree(area[1..], a, b); }
  }

  /** All requests of one plan, one after the other: what each took, concatenated. */
  ghost function TakenByAll(area: seq<Expression>, used: set<nat>, calls: seq<Call>): seq<Expression>
    decreases |calls|
  {
    if calls == [] then []
    else
      var taken := Taken(area, used, calls[0]);
      taken + TakenByAll(area, used + Ids(taken), calls[1..])
  }

  lemma {:induction false} TakenFresh(area: seq<Expression>, used: set<nat>, call: Call)
    ensures DistinctIds(Taken(area, used, call))
    ensures forall e :: e in Taken(area, used, call) ==> e in area && e.id !in used && Qualifies(e, call)
  {
    if area != [] {
      if area[0].id !in used && Qualifies(area[0], call) {
        TakenFresh(area[1..], used + {area[0].id}, call);
      } else {
        TakenFresh(area[1..], used, call);
      }
    }
  }

  /** A request leaves no qualifying expression unused. */
  lemma {:induction false} TakenMissesNothing(area: seq<Expression>, used: set<nat>, call: Call)
    ensures forall e :: e in area && Qualifies(e, call) ==> e.id in used + Ids(Taken(area, used, call))
  {
    if area != [] {
      var (e, rest) := (area[0], area[1..]);
      if e.id !in used && Qualifies(e, call) {
        TakenMissesNothing(rest, used + {e.id}, call);
        assert e in Taken(area, used, call);
        assert forall f :: f in Taken(rest, used + {e.id}, call) ==> f in Taken(area, used, call);
      } else {
        TakenMissesNothing(rest, used, call);
      }
      assert forall f :: f in area ==> f == e || f in rest;
    }
  }

  /** A request takes something exactly when some unused expression qualifies. */
  lemma TakesSomethingIff(area: seq<Expression>, used: set<nat>, call: Call)
    ensures Taken(area, used, call) != [] <==> exists e :: e in area && e.id !in used && Qualifies(e, call)
  {
    var taken := Taken(area, used, call);
    TakenFresh(area, used, call);
    TakenMissesNothing(area, used, call);
    if taken == [] {
      assert used + Ids(taken) == used;
    } else {
      assert taken[0] in taken;
    }
  }

  /** Whatever a request could take is gone for every later one, even if the plan it was for is dropped. */
  lemma NothingLeft(area: seq<Expression>, used: set<nat>, first: Call, later: Call)
    ensures forall e :: e in Taken(area, used + Ids(Taken(area, used, first)), later) ==> !Qualifies(e, first)
  {
    TakenMissesNothing(area, used, first);
    TakenFresh(area, used + Ids(Taken(area, used, first)), later);
  }

  /** Some expressions of an area, in its order. */
  ghost predicate Picked(es: seq<Expression>, area: seq<Expression>, at: seq<nat>) {
    && |at| == |es| && (forall i :: 0 <= i < |at| ==> at[i] < |area| && es[i] == area[at[i]])
    && forall i, j :: 0 <= i < j < |at| ==> at[i] < at[j]
  }

  lemma PickedLater(es: seq<Expression>, area: seq<Expression>, at: seq<nat>) returns (at': seq<nat>)
    requires area != [] && Picked(es, area[1..], at)
    ensures Picked(es, area, at') && Picked([area[0]] + es, area, [0] + at')
  {
    at' := seq(|at|, i requires 0 <= i < |at| => at[i] + 1);
  }

  /** A request keeps the order of the area. */
  lemma {:induction false} TakenInOrder(area: seq<Expression>, used: set<nat>, call: Call) returns (at: seq<nat>)
    ensures Picked(Taken(area, used, call), area, at)
  {
    at := [];
    if area != [] {
      var takes := area[0].id !in used && Qualifies(area[0], call);
      at := TakenInOrder(area[1..], if takes then used + {area[0].id} else used, call);
      at := PickedLater(Taken(area[1..], if takes then used + {area[0].id} else used, call), area, at);
      at := if takes then [0] + at else at;
    }
  }

  /** Over any sequence of requests every expression becomes a filter at most once. */
  lemma {:induction false} TakenAtMostOnce(area: seq<Expression>, used: set<nat>, calls: seq<Call>)
    ensures DistinctIds(TakenByAll(area, used, calls))
    ensures forall e :: e in TakenByAll(area, used, calls) ==> e in area && e.id !in used
    decreases |calls|
  {
    if calls != [] {
      var taken := Taken(area, used, calls[0]);
      TakenFresh(area, used, calls[0]);
      TakenAtMostOnce(area, used + Ids(taken), calls[1..]);
    }
  }

  lemma {:induction false} TakenOneMore(area: seq<Expression>, used: set<nat>, calls: seq<Call>, call: Call)
    ensures var taken := TakenByAll(area, used, calls);
            TakenByAll(area, used, calls + [call]) == taken + Taken(area, used + Ids(taken), call)
    decreases |calls|
  {
    if calls == [] {
      assert used + Ids([]) == used && [call][1..] == [];
      assert TakenByAll(area, used, [call]) == Taken(area, used, call) + TakenByAll(area, used + Ids(Taken(area, used, call)), []);
    } else {
      var now := used + Ids(Taken(area, used, calls[0]));
      TakenOneMore(area, now, calls[1..], call);
      assert (calls + [call])[1..] == calls[1..] + [call];
      assert used + Ids(TakenByAll(area, used, calls)) == now + Ids(TakenByAll(area, now, calls[1..]));
    }
  }

  ghost function Unused(area: seq<Expression>, used: set<nat>): seq<Expression> {
    Keep(area, Ids(area) - used)
  }

  lemma {:induction false} OperationsAppend(a: seq<Expression>, b: seq<Expression>)
    ensures Operations(a + b) == Operations(a) + Operations(b)
  {
    if a == [] {
      assert a + b == b;
    } else {
      assert (a + b)[1..] == a[1..] + b;
      OperationsAppend(a[1..], b);
    }
  }

  /** Keeping two disjoint parts charges as much as keeping their union. */
  lemma {:induction false} KeepDisjoint(area: seq<Expression>, a: set<nat>, b: set<nat>)
    requires a !! b
    ensures Operations(Keep(area, a)) + Operations(Keep(area, b)) == Operations(Keep(area, a + b))
  {
    if area != [] { KeepDisjoint(area[1..], a, b); }
  }

  lemma {:induction false} KeepIds(area: seq<Expression>, keep: set<nat>)
    ensures Ids(Keep(area, keep)) == Ids(area) * keep
  {
    if area != [] {
      KeepIds(area[1..], keep);
      var k := Keep(area, keep);
      forall i ensures i in Ids(k) <==> i in Ids(area) * keep {
        if i in Ids(area) * keep {
          var e :| e in area && e.id == i;
          if e != area[0] { assert e in area[1..]; assert i in Ids(area[1..]) * keep; }
          var f := if e == area[0] then e else (var f :| f in Keep(area[1..], keep) && f.id == i; f);
          assert f in k;
        }
        if i in Ids(k) {
          var e :| e in k && e.id == i;
          assert e == area[0] || e in Keep(area[1..], keep);
          if e in Keep(area[1..], keep) { assert i in Ids(Keep(area[1..], keep)); }
        }
      }
    }
  }

  /** Conservation: what the requests were charged with and what is still unused make up what was
      unused before, so no plan is charged with more than the area holds. */
  lemma {:induction false} ChargesConserved(area: seq<Expression>, used: set<nat>, calls: seq<Call>)
    requires DistinctIds(area)
    ensures var taken := TakenByAll(area, used, calls);
            Operations(taken) + Operations(Unused(area, used + Ids(taken))) == Operations(Unused(area, used))
    decreases |calls|
  {
    var all := TakenByAll(area, used, calls);
    if calls == [] {
      assert used + Ids(all) == used;
    } else {
      var q := QualifyingIds(area, used, calls[0]);
      var taken := Taken(area, used, calls[0]);
      TakenExactly(area, used, calls[0]);
      KeepIds(area, q);
      assert Ids(taken) == q;
      ChargesConserved(area, used + q, calls[1..]);
      var rest := TakenByAll(area, used + q, calls[1..]);
      OperationsAppend(taken, rest);
      KeepDisjoint(area, q, Ids(area) - (used + q));
      assert q + (Ids(area) - (used + q)) == Ids(area) - used;
      assert used + Ids(all) == used + q + Ids(rest);
    }
  }

  /** The whole plan, started with nothing used, is charged at most the operations of the area. */
  lemma ChargesBounded(area: seq<Expression>, calls: seq<Call>)
    requires DistinctIds(area)
    ensures Operations(TakenByAll(area, {}, calls)) <= Operations(area)
  {
    ChargesConserved(area, {}, calls);
    KeepAll(area, Ids(area));
    assert Ids(area) - {} == Ids(area);
  }

  lemma {:induction false} KeepAll(area: seq<Expression>, keep: set<nat>)
    requires Ids(area) <= keep
    ensures Keep(area, keep) == area
  {
    if area != [] {
      assert area[0].id in Ids(area);
      assert Ids(area[1..]) <= Ids(area);
      KeepAll(area[1..], keep);
    }
  }
}
